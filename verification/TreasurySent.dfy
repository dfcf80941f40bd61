/** What the transfers of a treasury run really send: what parseUnits makes of their amounts,
    which need not be what ParseFloat, and with it the limits, make of them. */
module TreasurySent {
  import opened Amounts
  import opened Floats
  import opened Numerals
  import opened Text
  import opened Totals
  import opened Treasury
  import opened Wrappers

  /** In whole tokens; a contract call sends what its calldata says, not its amount. */
  function WorthOf(cfg: Setting, req: Request): real {
    var d := cfg.decimals(req.token);
    if req.Transfer? && d >= 0 && UnitsOf(cfg, req).Ok? then Worth(UnitsOf(cfg, req).value, d) else 0.0
  }

  /** Broadcast, and not known to be reverted. */
  predicate Gone(s: State, hash: string, account: Account, window: Window) {
    hash in s.sent && AccountOf(s.sent[hash].req) == account && DayWithin(s.sent[hash].day, window)
    && (hash in s.rows ==> s.rows[hash].status != Reverted)
  }

  function SentWeights(cfg: Setting, s: State, account: Account, window: Window): map<string, real> {
    map h | h in s.sent :: if Gone(s, h, account, window) then WorthOf(cfg, s.sent[h].req) else 0.0
  }

  ghost function SentOutflow(cfg: Setting, s: State, account: Account, window: Window): real {
    Sum(SentWeights(cfg, s, account, window))
  }

  // ---- row by row ----------------------------------------------------------------------

  lemma RecordedNumber(cfg: Setting, req: Request, n: Numeral)
    requires PlainParser(cfg.parse) && ReadsNumerals(cfg.parse) && Valid(n) && req.Transfer?
    requires TrimSpace(req.amount) == Spelled(n) && ParseAmount(cfg.parse, req.amount).Ok?
    ensures Read(cfg.parse, RecordedAmount(req)) == if Trim(req.amount) then Finite(NumberOf(n)) else ZERO
  {
    RecordedAtMostChecked(cfg.parse, req);
    hide Trim, TrimSpace, Valid, Spelled;
  }

  /** Main result, row by row: a transfer whose amount is a numeral sends at most what is
      recorded of it if and only if it sends nothing, or its amount has no space at either
      end and no negative exponent. */
  lemma SentAtMostRecordedIff(cfg: Setting, req: Request, n: Numeral)
    requires PlainParser(cfg.parse) && ReadsNumerals(cfg.parse) && Valid(n) && req.Transfer?
    requires TrimSpace(req.amount) == Spelled(n) && Passed(cfg, req)
    ensures AtMost(Finite(WorthOf(cfg, req)), Read(cfg.parse, RecordedAmount(req)))
            <==> UnitsOf(cfg, req) == Ok(0) || (Trim(req.amount) && PowerOf(n) >= 0)
  {
    var d := cfg.decimals(req.token);
    assert 0 <= d <= 30;
    UnitsOfNumeral(req.amount, n, d);
    RecordedNumber(cfg, req, n);
    WorthIff(n, d);
    assert UnitsOf(cfg, req) == Ok(ScaledSignificand(n, d).Floor);
    hide Units, TrimSpace, Trim, Valid, PlainParser, ReadsNumerals, Read, RecordedAmount, ScaledSignificand, NumberOf,
         PowerOf, Worth, UnitsOf, ParseAmount;
  }

  /** The amounts that are sent as recorded at most: contract calls, and unpadded numerals
      with no negative exponent or no unit. */
  ghost predicate Covered(cfg: Setting, req: Request) {
    req.ContractCall?
    || exists n :: Valid(n) && req.amount == Spelled(n) && (PowerOf(n) >= 0 || UnitsOf(cfg, req) == Ok(0))
  }

  /** Unpadded plain decimals are among them. */
  lemma PlainIsCovered(cfg: Setting, req: Request)
    requires PlainDecimal(req.amount)
    ensures Covered(cfg, req)
  {
    var n := PlainIsNumeral(req.amount);
    hide PlainDecimal, Valid, Spelled;
    assert PowerOf(n) >= 0;
  }

  lemma CoveredAtMost(cfg: Setting, req: Request)
    requires PlainParser(cfg.parse) && ReadsNumerals(cfg.parse) && Passed(cfg, req) && Covered(cfg, req)
    requires Read(cfg.parse, RecordedAmount(req)).Finite?
    ensures WorthOf(cfg, req) <= Read(cfg.parse, RecordedAmount(req)).value
    ensures 0.0 <= Read(cfg.parse, RecordedAmount(req)).value
  {
    RecordedAtMostChecked(cfg.parse, req);
    if req.Transfer? {
      var n :| Valid(n) && req.amount == Spelled(n) && (PowerOf(n) >= 0 || UnitsOf(cfg, req) == Ok(0));
      SpelledEnds(n);
      TrimSpaceEnds(req.amount);
      SentAtMostRecordedIff(cfg, req, n);
    }
  }

  // ---- whole runs -----------------------------------------------------------------------

  /** All that was sent from the account is recorded, and covered by its record. */
  ghost predicate AllCovered(cfg: Setting, s: State, account: Account) {
    forall h :: h in s.sent && AccountOf(s.sent[h].req) == account ==> h in s.rows && Covered(cfg, s.sent[h].req)
  }

  lemma SentPartAtMost(cfg: Setting, s: State, account: Account, window: Window, hash: string)
    requires PlainParser(cfg.parse) && ReadsNumerals(cfg.parse) && Invariant(cfg, s) && AllCovered(cfg, s, account)
    requires Bounded(cfg, s.rows, account) && hash in s.sent
    ensures SentWeights(cfg, s, account, window)[hash]
         <= if hash in s.rows then Weights(cfg.parse, s.rows, account, window)[hash] else 0.0
  {
    hide PlainParser, ReadsNumerals, CleanIsBounded, Covered, Read, RecordedAmount, WorthOf, RealOutflow;
    if hash in s.rows {
      WeightNotNegative(cfg.parse, s.rows[hash], account, window);
    }
    if Gone(s, hash, account, window) {
      CoveredAtMost(cfg, s.sent[hash].req);
    }
  }

  /** Main result: when all that an account sent is recorded, reads as a number, and is
      covered by its record, the limits hold of what really went out. */
  lemma SentWithinLimits(cfg: Setting, steps: seq<Step>, account: Account, day: int)
    requires PlainParser(cfg.parse) && ReadsNumerals(cfg.parse)
    requires Clean(cfg.parse, Run(cfg, steps).rows, account) && AllCovered(cfg, Run(cfg, steps), account)
    ensures WithinLimits(cfg.limits, Finite(SentOutflow(cfg, Run(cfg, steps), account, OneDay(cfg.backend, day))))
  {
    RunKeepsInvariant(cfg, steps);
    hide Run, PlainParser, ReadsNumerals, Clean, AllCovered, SentWeights, Weights, WithinLimits;
    var s, window := Run(cfg, steps), OneDay(cfg.backend, day);
    if AnyLimit(cfg.limits) {
      assert Bounded(cfg, s.rows, account);
      SentAtMostRecorded(cfg, s, account, window);
      LimitsMonotone(cfg.limits, SentOutflow(cfg, s, account, window), RealOutflow(cfg.parse, s.rows, account, window));
    } else {
      NoLimit(cfg.limits, Finite(SentOutflow(cfg, s, account, window)));
    }
  }

  lemma NoLimit(limits: Limits, out: Float)
    requires !AnyLimit(limits)
    ensures WithinLimits(limits, out)
  {
  }

  lemma SentAtMostRecorded(cfg: Setting, s: State, account: Account, window: Window)
    requires PlainParser(cfg.parse) && ReadsNumerals(cfg.parse) && Invariant(cfg, s) && AllCovered(cfg, s, account)
    requires Bounded(cfg, s.rows, account)
    ensures SentOutflow(cfg, s, account, window) <= RealOutflow(cfg.parse, s.rows, account, window)
  {
    var p, q := SentWeights(cfg, s, account, window), Weights(cfg.parse, s.rows, account, window);
    assert AmountsCount(cfg.parse, s.rows);
    hide PlainParser, ReadsNumerals, AllCovered, Bounded, Invariant, Gone, Weight, Countable;
    forall h | h in p
      ensures p[h] <= if h in q then q[h] else 0.0
    {
      SentPartAtMost(cfg, s, account, window, h);
    }
    forall h | h in q
      ensures q[h] >= 0.0
    {
      WeightNotNegative(cfg.parse, s.rows[h], account, window);
    }
    SumMonotone(p, q);
  }

  // ---- each condition is needed ---------------------------------------------------------------

  /** A hash of n characters. */
  function HashOf(n: nat): (s: string)
    ensures |s| == n
  {
    if n == 0 then "" else HashOf(n - 1) + "x"
  }

  function Times(n: nat, v: real): real {
    n as real * v
  }

  lemma OneTimesMore(n: nat, v: real)
    ensures Times(n + 1, v) == Times(n, v) + v
  {
  }

  predicate RowsUnnoticed(parse: Parser, n: nat, rows: Rows) {
    forall h :: h in rows ==> |h| <= n && Read(parse, rows[h].amount) == ZERO
  }

  predicate ShortHashes(n: nat, sent: map<string, Sent>) {
    forall h :: h in sent ==> |h| <= n
  }

  lemma RowUnnoticed(parse: Parser, n: nat, rows: Rows, hash: string, row: Row)
    requires RowsUnnoticed(parse, n, rows) && |hash| == n + 1 && Read(parse, row.amount) == ZERO
    ensures RowsUnnoticed(parse, n + 1, rows[hash := row])
  {
    hide Read;
  }

  lemma LongHashNew(parse: Parser, n: nat, rows: Rows, hash: string)
    requires RowsUnnoticed(parse, n, rows) && |hash| == n + 1
    ensures hash !in rows && RowsUnnoticed(parse, n + 1, rows)
  {
    hide Read;
  }

  lemma OneHashMore(n: nat, sent: map<string, Sent>, hash: string, item: Sent)
    requires ShortHashes(n, sent) && |hash| == n + 1
    ensures hash !in sent && ShortHashes(n + 1, sent[hash := item])
  {
  }

  /** n times the request was sent, and its account reads as if nothing was. */
  ghost predicate SentUnnoticed(cfg: Setting, req: Request, n: nat, day: int, s: State) {
    RowsUnnoticed(cfg.parse, n, s.rows) && ShortHashes(n, s.sent)
    && SentOutflow(cfg, s, AccountOf(req), OneDay(cfg.backend, day)) == Times(n, WorthOf(cfg, req))
  }

  lemma UnnoticedOutflow(cfg: Setting, rows: Rows, account: Account, window: Window)
    requires forall h :: h in rows ==> Read(cfg.parse, rows[h].amount) == ZERO
    ensures Outflow(cfg.parse, rows, account, window) == ZERO
  {
    hide Read;
    OutflowIsReal(cfg.parse, rows, account, window);
    SumOfZeros(Weights(cfg.parse, rows, account, window));
  }

  lemma FitsAlone(cfg: Setting, rows: Rows, req: Request, day: int)
    requires Outflow(cfg.parse, rows, AccountOf(req), Queried(cfg.backend, day)) == ZERO
    requires ParseAmount(cfg.parse, req.amount).Ok?
    requires WithinLimits(cfg.limits, ParseAmount(cfg.parse, req.amount).value)
    ensures Accepted(cfg, rows, req, day)
  {
    hide Outflow, ParseAmount, AccountOf;
  }

  lemma SentAdd(cfg: Setting, s: State, req: Request, hash: string, recorded: bool, day: int, window: Window)
    requires hash !in s.rows && hash !in s.sent && DayWithin(day, window)
    ensures var rows := if recorded then s.rows[hash := NewRow(req, true, day)] else s.rows;
            var t := s.(rows := rows, sent := s.sent[hash := Sent(req, day)]);
            SentOutflow(cfg, t, AccountOf(req), window)
            == SentOutflow(cfg, s, AccountOf(req), window) + WorthOf(cfg, req)
  {
    var rows := if recorded then s.rows[hash := NewRow(req, true, day)] else s.rows;
    var t := s.(rows := rows, sent := s.sent[hash := Sent(req, day)]);
    hide WorthOf, DayWithin, AccountOf, RecordedAmount;
    var weights := SentWeights(cfg, s, AccountOf(req), window);
    assert SentWeights(cfg, t, AccountOf(req), window) == weights[hash := WorthOf(cfg, req)];
    SumAdd(weights, hash, WorthOf(cfg, req));
  }

  /** A request of which nothing is noticed: padded, so that its record reads as nothing, or
      not recorded at all. */
  ghost predicate Unnoticed(cfg: Setting, req: Request, recorded: bool) {
    && req.Transfer? && Signable(cfg, req) && ParseAmount(cfg.parse, req.amount).Ok?
    && WithinLimits(cfg.limits, ParseAmount(cfg.parse, req.amount).value)
    && if recorded then !Trim(req.amount) else cfg.backend.Postgres?
  }

  lemma SendApplies(cfg: Setting, s: State, req: Request, hash: string, recorded: bool, day: int)
    requires hash !in s.rows && hash !in s.sent && Signable(cfg, req) && (recorded || cfg.backend.Postgres?)
    requires Accepted(cfg, s.rows, req, day)
    ensures Apply(cfg, s, Send(req, hash, true, recorded, day, day))
         == s.(rows := if recorded then s.rows[hash := NewRow(req, true, day)] else s.rows,
               sent := s.sent[hash := Sent(req, day)])
  {
    hide Accepted, Signable, NewRow;
  }

  lemma SendUnnoticed(cfg: Setting, req: Request, recorded: bool, n: nat, day: int, s: State)
    requires PlainParser(cfg.parse) && Unnoticed(cfg, req, recorded) && SentUnnoticed(cfg, req, n, day, s)
    ensures SentUnnoticed(cfg, req, n + 1, day, Apply(cfg, s, Send(req, HashOf(n + 1), true, recorded, day, day)))
  {
    hide *;
    var hash, account, row := HashOf(n + 1), AccountOf(req), NewRow(req, true, day);
    UnnoticedMeans(cfg, req, recorded, day);
    UnnoticedSoFarMeans(cfg, req, n, day, s);
    FitsAlone(cfg, s.rows, req, day);
    LongHashNew(cfg.parse, n, s.rows, hash);
    if recorded {
      RowUnnoticed(cfg.parse, n, s.rows, hash, row);
    }
    OneHashMore(n, s.sent, hash, Sent(req, day));
    SendApplies(cfg, s, req, hash, recorded, day);
    TodayCounts(cfg.backend, day);
    SentAdd(cfg, s, req, hash, recorded, day, OneDay(cfg.backend, day));
    OneTimesMore(n, WorthOf(cfg, req));
    UnnoticedSoFar(cfg, req, n + 1, day, Apply(cfg, s, Send(req, hash, true, recorded, day, day)));
  }

  lemma UnnoticedMeans(cfg: Setting, req: Request, recorded: bool, day: int)
    requires PlainParser(cfg.parse) && Unnoticed(cfg, req, recorded)
    ensures Signable(cfg, req) && ParseAmount(cfg.parse, req.amount).Ok? && (recorded || cfg.backend.Postgres?)
    ensures WithinLimits(cfg.limits, ParseAmount(cfg.parse, req.amount).value)
    ensures recorded ==> Read(cfg.parse, NewRow(req, true, day).amount) == ZERO
  {
    RecordedAtMostChecked(cfg.parse, req);
    hide PlainParser, Trim, TrimSpace, Read, WithinLimits, Signable;
  }

  lemma UnnoticedSoFarMeans(cfg: Setting, req: Request, n: nat, day: int, s: State)
    requires SentUnnoticed(cfg, req, n, day, s)
    ensures RowsUnnoticed(cfg.parse, n, s.rows) && ShortHashes(n, s.sent)
    ensures SentOutflow(cfg, s, AccountOf(req), OneDay(cfg.backend, day)) == Times(n, WorthOf(cfg, req))
    ensures Outflow(cfg.parse, s.rows, AccountOf(req), Queried(cfg.backend, day)) == ZERO
  {
    hide Read, SentOutflow, Times, WorthOf;
    UnnoticedOutflow(cfg, s.rows, AccountOf(req), Queried(cfg.backend, day));
  }

  lemma UnnoticedSoFar(cfg: Setting, req: Request, n: nat, day: int, s: State)
    requires RowsUnnoticed(cfg.parse, n, s.rows) && ShortHashes(n, s.sent)
    requires SentOutflow(cfg, s, AccountOf(req), OneDay(cfg.backend, day)) == Times(n, WorthOf(cfg, req))
    ensures SentUnnoticed(cfg, req, n, day, s)
  {
  }

  lemma TodayCounts(backend: Backend, day: int)
    ensures DayWithin(day, OneDay(backend, day))
  {
  }

  function Repeats(req: Request, recorded: bool, n: nat, day: int): seq<Step> {
    if n == 0 then [] else Repeats(req, recorded, n - 1, day) + [Send(req, HashOf(n), true, recorded, day, day)]
  }

  lemma RunRepeats(cfg: Setting, req: Request, recorded: bool, n: nat, day: int)
    requires n > 0
    ensures Run(cfg, Repeats(req, recorded, n, day))
         == Apply(cfg, Run(cfg, Repeats(req, recorded, n - 1, day)), Send(req, HashOf(n), true, recorded, day, day))
  {
    hide Apply, HashOf;
    var before := Repeats(req, recorded, n - 1, day);
    assert Repeats(req, recorded, n, day)[..|before|] == before;
  }

  lemma NothingSent(cfg: Setting, req: Request, recorded: bool, day: int)
    ensures SentUnnoticed(cfg, req, 0, day, Run(cfg, Repeats(req, recorded, 0, day)))
  {
    hide Apply, WorthOf, Gone, OneDay;
    assert Run(cfg, Repeats(req, recorded, 0, day)) == INITIAL;
    SumOfZeros(SentWeights(cfg, INITIAL, AccountOf(req), OneDay(cfg.backend, day)));
  }

  lemma {:induction false} RepeatsUnnoticed(cfg: Setting, req: Request, recorded: bool, n: nat, day: int)
    requires PlainParser(cfg.parse) && Unnoticed(cfg, req, recorded)
    ensures SentUnnoticed(cfg, req, n, day, Run(cfg, Repeats(req, recorded, n, day)))
  {
    hide *;
    if n == 0 {
      NothingSent(cfg, req, recorded, day);
    } else {
      RepeatsUnnoticed(cfg, req, recorded, n - 1, day);
      RunRepeats(cfg, req, recorded, n, day);
      SendUnnoticed(cfg, req, recorded, n - 1, day, Run(cfg, Repeats(req, recorded, n - 1, day)));
    }
  }

  /** Multiples of a positive number pass every bound. */
  lemma Archimedes(v: real, bound: real) returns (n: nat)
    requires v > 0.0
    ensures Times(n, v) > bound
  {
    if bound < 0.0 {
      n := 0;
    } else {
      n := (bound / v).Floor + 1;
      assert n as real > bound / v;
      assert n as real * v > bound / v * v;
    }
  }

  /** With a padded amount, or with one broadcast after the other that the database does not
      record, no bound holds of what goes out: every bound is passed by some run of requests
      that alone are within the limits. */
  lemma UnnoticedPassAnyBound(cfg: Setting, req: Request, recorded: bool, bound: real, day: int)
    returns (steps: seq<Step>)
    requires PlainParser(cfg.parse) && Unnoticed(cfg, req, recorded) && WorthOf(cfg, req) > 0.0
    ensures SentOutflow(cfg, Run(cfg, steps), AccountOf(req), OneDay(cfg.backend, day)) > bound
  {
    hide PlainParser, Unnoticed, SentOutflow, Run, Repeats, WorthOf, Times;
    var n := Archimedes(WorthOf(cfg, req), bound);
    RepeatsUnnoticed(cfg, req, recorded, n, day);
    steps := Repeats(req, recorded, n, day);
  }

  /** The parser takes every numeral; the real one takes those whose number is in range. */
  ghost predicate ReadsEvery(parse: Parser) {
    forall n :: Valid(n) ==> parse(Spelled(n)) == Some(Finite(NumberOf(n)))
  }

  /** A positive number within both limits. */
  function Smallest(limits: Limits): (x: real)
    ensures x > 0.0 && (limits.lockThreshold > 0.0 ==> x <= limits.lockThreshold)
    ensures limits.maxDailyOut > 0.0 ==> x <= limits.maxDailyOut
  {
    var a := if limits.lockThreshold > 0.0 then limits.lockThreshold else 1.0;
    var b := if limits.maxDailyOut > 0.0 then limits.maxDailyOut else 1.0;
    if a <= b then a else b
  }

  lemma TinyFits(cfg: Setting, req: Request, n: Numeral)
    requires ReadsEvery(cfg.parse) && Valid(n) && req.amount == Spelled(n)
    requires 0.0 < NumberOf(n) <= Smallest(cfg.limits)
    ensures ParseAmount(cfg.parse, req.amount) == Ok(Finite(NumberOf(n)))
    ensures WithinLimits(cfg.limits, ParseAmount(cfg.parse, req.amount).value)
  {
    SpelledEnds(n);
    assert Spelled(n) != "";
    hide Spelled, TrimSpace, NumberOf, Valid;
  }

  /** With a negative exponent one transfer is enough, recorded and without any space: for
      every bound there is a text that reads as a number within the limits and sends more. */
  lemma ExponentPassesAnyBound(cfg: Setting, token: string, network: string, bound: real, day: int)
    returns (req: Request, n: Numeral)
    requires PlainParser(cfg.parse) && ReadsEvery(cfg.parse) && 0 <= cfg.decimals(token) <= 30
    ensures req == Transfer(token, network, Spelled(n)) && Valid(n) && Trim(req.amount)
    ensures var s := Run(cfg, [Send(req, "x", true, true, day, day)]);
            && s.rows == map["x" := NewRow(req, true, day)]
            && SentOutflow(cfg, s, AccountOf(req), OneDay(cfg.backend, day)) > bound
  {
    var k, j := PowerBeyond(bound, Smallest(cfg.limits));
    n := TinyNumeral(k, j, cfg.decimals(token));
    req := Transfer(token, network, Spelled(n));
    SpelledEnds(n);
    TrimSpaceEnds(req.amount);
    TinyNumber(k, j, cfg.decimals(token));
    TinyWorth(req.amount, k, j, cfg.decimals(token));
    hide Spelled, TinyNumeral, NumberOf, Pow10, Units, Trim, TrimSpace, Valid, Worth;
    InverseNotNegative(Pow10(j) as real);
    TinyFits(cfg, req, n);
    OneSend(cfg, req, day);
    assert WorthOf(cfg, req) == Pow10(k) as real;
  }

  lemma InverseNotNegative(p: real)
    requires p > 0.0
    ensures 1.0 / p > 0.0
  {
  }

  /** The first send of a run. */
  lemma OneSend(cfg: Setting, req: Request, day: int)
    requires req.Transfer? && Signable(cfg, req) && ParseAmount(cfg.parse, req.amount).Ok?
    requires WithinLimits(cfg.limits, ParseAmount(cfg.parse, req.amount).value)
    ensures var s := Run(cfg, [Send(req, "x", true, true, day, day)]);
            && s.rows == map["x" := NewRow(req, true, day)]
            && SentOutflow(cfg, s, AccountOf(req), OneDay(cfg.backend, day)) == WorthOf(cfg, req)
  {
    var step, account, window := Send(req, "x", true, true, day, day), AccountOf(req), OneDay(cfg.backend, day);
    assert [step][..0] == [];
    UnnoticedOutflow(cfg, INITIAL.rows, account, Queried(cfg.backend, day));
    FitsAlone(cfg, INITIAL.rows, req, day);
    TodayCounts(cfg.backend, day);
    hide Accepted, Outflow, WorthOf, Signable, ParseAmount, WithinLimits, DayWithin;
    assert Run(cfg, []) == INITIAL;
    SentAdd(cfg, INITIAL, req, "x", true, day, window);
    SumOfZeros(SentWeights(cfg, INITIAL, account, window));
  }

  /** One contract call whose amount reads as NaN lifts the limits of its account: any
      transfer that can be signed and read is then sent. */
  lemma NaNCallLiftsLimits(cfg: Setting, call: Request, req: Request, day: int)
    requires call.ContractCall? && !Blank(call) && Trim(call.amount) && cfg.parse(call.amount) == Some(NaN)
    requires req.Transfer? && AccountOf(req) == AccountOf(call) && Passed(cfg, req)
    ensures var s := Run(cfg, [Send(call, "x", true, true, day, day), Send(req, "y", true, true, day, day)]);
            "y" in s.sent && s.sent["y"] == Sent(req, day)
  {
    var first, second := Send(call, "x", true, true, day, day), Send(req, "y", true, true, day, day);
    assert [first, second][..1] == [first];
    TrimSpaceEnds(call.amount);
    assert ParseAmount(cfg.parse, call.amount) == Ok(NaN);
    assert Read(cfg.parse, RecordedAmount(call)) == NaN;
    assert !Blank(req) && ParseAmount(cfg.parse, req.amount).Ok?;
    hide ParseAmount, TrimSpace, Trim, Read, RecordedAmount, AccountOf, Signable;
    NaNCallFirst(cfg, call, day);
    var s := Run(cfg, [first]);
    TodayQueried(cfg.backend, day);
    NaNLiftsLimits(cfg, s.rows, "x", req, day);
    hide Accepted, Run;
    SendApplies(cfg, s, req, "y", true, day);
    RunLast(cfg, [first], second);
  }

  lemma RunLast(cfg: Setting, steps: seq<Step>, step: Step)
    ensures Run(cfg, steps + [step]) == Apply(cfg, Run(cfg, steps), step)
  {
    hide Apply;
    assert (steps + [step])[..|steps|] == steps;
  }

  lemma TodayQueried(backend: Backend, day: int)
    ensures DayWithin(day, Queried(backend, day))
  {
  }

  lemma NaNCallFirst(cfg: Setting, call: Request, day: int)
    requires call.ContractCall? && ParseAmount(cfg.parse, call.amount) == Ok(NaN)
    ensures Run(cfg, [Send(call, "x", true, true, day, day)])
         == State(map["x" := NewRow(call, true, day)], [], map["x" := Sent(call, day)])
  {
    NaNAccepted(cfg, INITIAL.rows, call, day);
    hide Accepted, ParseAmount, NewRow;
    assert Run(cfg, []) == INITIAL;
    SendApplies(cfg, INITIAL, call, "x", true, day);
    RunLast(cfg, [], Send(call, "x", true, true, day, day));
    assert [] + [Send(call, "x", true, true, day, day)] == [Send(call, "x", true, true, day, day)];
  }

  lemma NaNAccepted(cfg: Setting, rows: Rows, call: Request, day: int)
    requires ParseAmount(cfg.parse, call.amount) == Ok(NaN)
    ensures Accepted(cfg, rows, call, day)
  {
    hide Outflow, ParseAmount, TrimSpace;
  }
}

/** The treasury limits of main.go over the transaction table of store.go: transfers and
    contract calls are checked against what the table says went out, then broadcast and
    recorded; a monitor turns submitted rows into confirmed or reverted ones. */
module Treasury {
  import opened Amounts
  import opened Floats
  import opened Text
  import opened Totals
  import opened Wrappers
  import Idempotency

  type Backend = Idempotency.Backend

  datatype Status = Signed | Submitted | Confirmed | Reverted | Failed

  /** The token text and the network a limit is counted for. */
  datatype Account = Account(token: string, network: string)

  datatype Row = Row(account: Account, amount: string, status: Status, day: int)

  type Rows = map<string, Row>

  /** strconv.ParseFloat, without rounding. */
  type Parser = string -> Option<Float>

  datatype Limits = Limits(lockThreshold: real, maxDailyOut: real)

  /** `decimals` is what parseUnits is given for a token: its own, or 18 for the coin. */
  datatype Setting = Setting(backend: Backend, parse: Parser, limits: Limits, decimals: string -> int)

  /** ParseFloat takes "0" and refuses texts with a space at either end. */
  ghost predicate PlainParser(parse: Parser) {
    parse("0") == Some(ZERO) && forall s :: !Trim(s) ==> parse(s) == None
  }

  // ---- recorded outflow -------------------------------------------------------------

  datatype Window = AllDays | Since(day: int) | On(day: int)

  predicate DayWithin(day: int, window: Window) {
    match window
    case AllDays => true
    case Since(first) => day >= first
    case On(only) => day == only
  }

  predicate Counted(row: Row, account: Account, window: Window) {
    row.account == account && (row.status == Submitted || row.status == Confirmed) && DayWithin(row.day, window)
  }

  function Read(parse: Parser, text: string): Float {
    if parse(text).Some? then parse(text).value else ZERO
  }

  function Part(parse: Parser, row: Row, account: Account, window: Window): Float {
    if Counted(row, account, window) then Read(parse, row.amount) else ZERO
  }

  function Parts(parse: Parser, rows: Rows, account: Account, window: Window): map<string, Float> {
    map h | h in rows :: Part(parse, rows[h], account, window)
  }

  ghost function Outflow(parse: Parser, rows: Rows, account: Account, window: Window): Float {
    Total(Parts(parse, rows, account, window))
  }

  /** What DailySubmittedOutflow looks at: the memory store never forgets a day. */
  function Queried(backend: Backend, today: int): Window {
    if backend.Memory? then AllDays else Since(today)
  }

  /** What a daily limit is about. */
  function OneDay(backend: Backend, day: int): Window {
    if backend.Memory? then AllDays else On(day)
  }

  // ---- the checks -------------------------------------------------------------------

  predicate WithinLimits(limits: Limits, out: Float) {
    (limits.lockThreshold > 0.0 ==> AtMost(out, Finite(limits.lockThreshold)))
    && (limits.maxDailyOut > 0.0 ==> AtMost(out, Finite(limits.maxDailyOut)))
  }

  predicate AnyLimit(limits: Limits) {
    limits.lockThreshold > 0.0 || limits.maxDailyOut > 0.0
  }

  /** A transfer's token is already the normalised one. */
  datatype Request =
    | Transfer(token: string, network: string, amount: string)
    | ContractCall(token: string, network: string, amount: string)

  function AccountOf(req: Request): Account {
    Account(if req.Transfer? then req.token else TrimSpace(req.token), req.network)
  }

  predicate Blank(req: Request) {
    req.ContractCall? && TrimSpace(req.amount) == ""
  }

  function RecordedAmount(req: Request): string {
    if Blank(req) then "0" else req.amount
  }

  /** parseFloatAmount: NaN is not at most zero. */
  function ParseAmount(parse: Parser, text: string): Result<Float> {
    var trimmed := TrimSpace(text);
    if trimmed == "" || parse(trimmed).None? || AtMost(parse(trimmed).value, ZERO) then Err("amount invalido")
    else Ok(parse(trimmed).value)
  }

  /** validateTreasuryPolicy and validateContractCallTreasuryPolicy. */
  function TreasuryError(parse: Parser, limits: Limits, req: Request, outflow: Float): Option<string> {
    if Blank(req) then None
    else
      var amount := ParseAmount(parse, req.amount);
      if amount.Err? then Some(amount.error)
      else
        var next := Add(outflow, amount.value);
        if limits.lockThreshold > 0.0 && Exceeds(next, Finite(limits.lockThreshold)) then Some("treasury lockdown")
        else if limits.maxDailyOut > 0.0 && Exceeds(next, Finite(limits.maxDailyOut))
        then Some("limite diario de treasury excedido")
        else None
  }

  /** What parseUnits makes of a transfer's amount; a contract call's calldata is its own. */
  function UnitsOf(cfg: Setting, req: Request): Result<int> {
    Units(req.amount, cfg.decimals(req.token))
  }

  /** A transfer is signed only when parseUnits takes its amount. */
  predicate Signable(cfg: Setting, req: Request) {
    req.Transfer? ==> UnitsOf(cfg, req).Ok?
  }

  // ---- the runs -----------------------------------------------------------------------

  /** A transaction that went out. */
  datatype Sent = Sent(req: Request, day: int)

  /** `pending` are the hashes the monitor listed and has not looked up yet; `sent` is what
      was broadcast, whether the table knows of it or not. */
  datatype State = State(rows: Rows, pending: seq<string>, sent: map<string, Sent>)

  const INITIAL := State(map[], [], map[])

  /** Send: check, sign, broadcast and record, one request at a time; the day may turn
      between check and record, and the record may fail, which is not noticed. List, Mark
      and Stop: one pass of the monitor, between whose steps requests may come in. */
  datatype Step =
    | Send(req: Request, hash: string, broadcast: bool, recorded: bool, checkDay: int, createDay: int)
    | List(hashes: seq<string>)
    | Mark(receipt: Option<bool>)
    | Stop

  predicate Open(rows: Rows, hash: string) {
    hash in rows && (rows[hash].status == Submitted || rows[hash].status == Signed)
  }

  predicate Distinct(hashes: seq<string>) {
    forall i, j :: 0 <= i < j < |hashes| ==> hashes[i] != hashes[j]
  }

  function Marked(rows: Rows, hash: string, status: Status): Rows {
    if hash in rows then rows[hash := rows[hash].(status := status)] else rows
  }

  ghost predicate Accepted(cfg: Setting, rows: Rows, req: Request, checkDay: int) {
    TreasuryError(cfg.parse, cfg.limits, req,
                  Outflow(cfg.parse, rows, AccountOf(req), Queried(cfg.backend, checkDay))) == None
  }

  function NewRow(req: Request, broadcast: bool, day: int): Row {
    Row(AccountOf(req), RecordedAmount(req), if broadcast then Submitted else Failed, day)
  }

  /** The step is due: its hash is new, its amount can be signed and the check lets it
      through; only a database can fail to record. */
  ghost predicate SendDue(cfg: Setting, s: State, step: Step)
    requires step.Send?
  {
    && step.hash !in s.rows && step.hash !in s.sent && step.checkDay <= step.createDay
    && Signable(cfg, step.req) && (step.recorded || cfg.backend.Postgres?)
    && Accepted(cfg, s.rows, step.req, step.checkDay)
  }

  ghost function Apply(cfg: Setting, s: State, step: Step): State {
    match step
    case Send(req, hash, broadcast, recorded, checkDay, createDay) =>
      if SendDue(cfg, s, step)
      then s.(rows := if recorded then s.rows[hash := NewRow(req, broadcast, createDay)] else s.rows,
              sent := if broadcast then s.sent[hash := Sent(req, createDay)] else s.sent)
      else s
    case List(hashes) =>
      if s.pending == [] && Distinct(hashes) && forall h :: h in hashes ==> Open(s.rows, h)
      then s.(pending := hashes) else s
    case Mark(receipt) =>
      if s.pending == [] then s
      else
        s.(rows := if receipt.None? then s.rows
                   else Marked(s.rows, s.pending[0], if receipt.value then Confirmed else Reverted),
           pending := s.pending[1..])
    case Stop => s.(pending := [])
  }

  ghost function Run(cfg: Setting, steps: seq<Step>): State {
    if steps == [] then INITIAL
    else Apply(cfg, Run(cfg, steps[..|steps| - 1]), steps[|steps| - 1])
  }

  // ---- what every step keeps ------------------------------------------------------------

  /** What a recorded amount can read as. */
  predicate Countable(x: Float) {
    x == NaN || AtMost(ZERO, x)
  }

  ghost predicate AmountsCount(parse: Parser, rows: Rows) {
    forall h :: h in rows ==> Countable(Read(parse, rows[h].amount))
  }

  /** The monitor's listed rows are all still submitted: nobody else closes a row. */
  predicate PendingSubmitted(s: State) {
    Distinct(s.pending) && forall h :: h in s.pending ==> h in s.rows && s.rows[h].status == Submitted
  }

  predicate NoneSigned(rows: Rows) {
    forall h :: h in rows ==> rows[h].status != Signed
  }

  /** No row of the account that was broadcast reads as NaN. */
  ghost predicate Clean(parse: Parser, rows: Rows, account: Account) {
    forall h :: h in rows && rows[h].account == account && rows[h].status != Failed ==>
      Read(parse, rows[h].amount) != NaN
  }

  /** The amount of a row as a real, where it is one. */
  function Weight(parse: Parser, row: Row, account: Account, window: Window): real {
    var part := Part(parse, row, account, window);
    if part.Finite? then part.value else 0.0
  }

  function Weights(parse: Parser, rows: Rows, account: Account, window: Window): map<string, real> {
    map h | h in rows :: Weight(parse, rows[h], account, window)
  }

  ghost function RealOutflow(parse: Parser, rows: Rows, account: Account, window: Window): real {
    Sum(Weights(parse, rows, account, window))
  }

  /** Every broadcast row of the account reads as a real, and they add up within the limits. */
  ghost predicate Bounded(cfg: Setting, rows: Rows, account: Account) {
    (forall h :: h in rows && rows[h].account == account && rows[h].status != Failed ==>
       Read(cfg.parse, rows[h].amount).Finite?)
    && forall day :: WithinLimits(cfg.limits, Finite(RealOutflow(cfg.parse, rows, account, OneDay(cfg.backend, day))))
  }

  /** Accounts without a NaN are bounded, once there is a limit. */
  ghost predicate CleanIsBounded(cfg: Setting, rows: Rows) {
    AnyLimit(cfg.limits) ==> forall account :: Clean(cfg.parse, rows, account) ==> Bounded(cfg, rows, account)
  }

  /** The rows that are not failed are the recorded part of what was sent. */
  predicate RowsAreSent(s: State) {
    forall h :: h in s.rows ==>
      if h in s.sent
      then s.rows[h] == NewRow(s.sent[h].req, true, s.sent[h].day).(status := s.rows[h].status)
           && s.rows[h].status != Failed
      else s.rows[h].status == Failed
  }

  /** What went out could be signed, and its amount was read. */
  predicate Passed(cfg: Setting, req: Request) {
    Signable(cfg, req) && (Blank(req) || ParseAmount(cfg.parse, req.amount).Ok?)
  }

  predicate AllPassed(cfg: Setting, s: State) {
    forall h :: h in s.sent ==> Passed(cfg, s.sent[h].req)
  }

  ghost predicate Invariant(cfg: Setting, s: State) {
    && AmountsCount(cfg.parse, s.rows) && PendingSubmitted(s) && NoneSigned(s.rows)
    && CleanIsBounded(cfg, s.rows) && RowsAreSent(s) && AllPassed(cfg, s)
  }

  /** The recorded text reads as NaN exactly when the checked amount did and was not padded;
      otherwise it reads as at most that amount. */
  lemma RecordedAtMostChecked(parse: Parser, req: Request)
    requires PlainParser(parse) && (Blank(req) || ParseAmount(parse, req.amount).Ok?)
    ensures Countable(Read(parse, RecordedAmount(req)))
    ensures Blank(req) ==> Read(parse, RecordedAmount(req)) == ZERO
    ensures !Blank(req) ==>
              Read(parse, RecordedAmount(req))
              == if Trim(req.amount) then ParseAmount(parse, req.amount).value else ZERO
  {
    TrimSpaceEnds(req.amount);
  }

  lemma OutflowIsReal(parse: Parser, rows: Rows, account: Account, window: Window)
    requires forall h :: h in rows && Counted(rows[h], account, window) ==> Read(parse, rows[h].amount).Finite?
    ensures Outflow(parse, rows, account, window) == Finite(RealOutflow(parse, rows, account, window))
  {
    hide Counted, Read;
    assert Parts(parse, rows, account, window) == Lifted(Weights(parse, rows, account, window));
    TotalIsSum(Weights(parse, rows, account, window));
  }

  lemma BoundedOutflow(cfg: Setting, rows: Rows, account: Account, window: Window)
    requires Bounded(cfg, rows, account)
    ensures Outflow(cfg.parse, rows, account, window) == Finite(RealOutflow(cfg.parse, rows, account, window))
  {
    hide RealOutflow, Outflow, WithinLimits;
    OutflowIsReal(cfg.parse, rows, account, window);
  }

  lemma RealOutflowAdd(parse: Parser, rows: Rows, hash: string, row: Row, account: Account, window: Window)
    requires hash !in rows
    ensures RealOutflow(parse, rows[hash := row], account, window)
            == RealOutflow(parse, rows, account, window) + Weight(parse, row, account, window)
  {
    hide Weight;
    var weights, more := Weights(parse, rows, account, window), rows[hash := row];
    assert Weights(parse, more, account, window) == weights[hash := Weight(parse, row, account, window)];
    SumAdd(weights, hash, Weight(parse, row, account, window));
  }

  lemma RealOutflowReplace(parse: Parser, rows: Rows, hash: string, row: Row, account: Account, window: Window)
    requires hash in rows
    ensures RealOutflow(parse, rows[hash := row], account, window)
            == RealOutflow(parse, rows, account, window) - Weight(parse, rows[hash], account, window)
               + Weight(parse, row, account, window)
  {
    hide Weight;
    var weights, more := Weights(parse, rows, account, window), rows[hash := row];
    assert Weights(parse, more, account, window) == weights[hash := Weight(parse, row, account, window)];
    SumReplace(weights, hash, Weight(parse, row, account, window));
  }

  lemma WeightNotNegative(parse: Parser, row: Row, account: Account, window: Window)
    requires Countable(Read(parse, row.amount))
    ensures Weight(parse, row, account, window) >= 0.0
  {
  }

  /** What counts on the day a row is created was counted by the check before it. */
  lemma DayAtMostQueried(backend: Backend, parse: Parser, rows: Rows, account: Account, checkDay: int, day: int)
    requires AmountsCount(parse, rows) && checkDay <= day
    ensures RealOutflow(parse, rows, account, OneDay(backend, day))
            <= RealOutflow(parse, rows, account, Queried(backend, checkDay))
  {
    var p := Weights(parse, rows, account, OneDay(backend, day));
    var q := Weights(parse, rows, account, Queried(backend, checkDay));
    forall h | h in rows
      ensures p[h] <= q[h]
    {
      WeightNotNegative(parse, rows[h], account, Queried(backend, checkDay));
    }
    hide Weight;
    SumMonotone(p, q);
  }

  lemma LimitsMonotone(limits: Limits, x: real, y: real)
    requires x <= y && WithinLimits(limits, Finite(y))
    ensures WithinLimits(limits, Finite(x))
  {
  }

  /** Once there is a limit, an accepted request whose record is not NaN has a finite one,
      and it fits the limits on top of the queried outflow. */
  lemma AcceptedFits(cfg: Setting, req: Request, queried: real)
    requires PlainParser(cfg.parse) && AnyLimit(cfg.limits)
    requires TreasuryError(cfg.parse, cfg.limits, req, Finite(queried)) == None
    requires Read(cfg.parse, RecordedAmount(req)) != NaN
    ensures var x := Read(cfg.parse, RecordedAmount(req));
            x.Finite? && x.value >= 0.0 && (x.value == 0.0 || WithinLimits(cfg.limits, Finite(queried + x.value)))
  {
    RecordedAtMostChecked(cfg.parse, req);
    hide PlainParser, Trim, TrimSpace, Read;
  }

  lemma NewRowBounded(cfg: Setting, rows: Rows, req: Request, hash: string, checkDay: int, day: int)
    requires PlainParser(cfg.parse) && AmountsCount(cfg.parse, rows) && AnyLimit(cfg.limits)
    requires Bounded(cfg, rows, AccountOf(req)) && hash !in rows && checkDay <= day
    requires Accepted(cfg, rows, req, checkDay) && Read(cfg.parse, RecordedAmount(req)) != NaN
    ensures Bounded(cfg, rows[hash := NewRow(req, true, day)], AccountOf(req))
  {
    var account, row, more := AccountOf(req), NewRow(req, true, day), rows[hash := NewRow(req, true, day)];
    var x, window := Read(cfg.parse, RecordedAmount(req)), Queried(cfg.backend, checkDay);
    BoundedOutflow(cfg, rows, account, window);
    AcceptedFits(cfg, req, RealOutflow(cfg.parse, rows, account, window));
    hide RealOutflow, WithinLimits, PlainParser, TrimSpace, Read, Accepted;
    forall d
      ensures WithinLimits(cfg.limits, Finite(RealOutflow(cfg.parse, more, account, OneDay(cfg.backend, d))))
    {
      var today := OneDay(cfg.backend, d);
      RealOutflowAdd(cfg.parse, rows, hash, row, account, today);
      assert WithinLimits(cfg.limits, Finite(RealOutflow(cfg.parse, rows, account, today)));
      if Counted(row, account, today) && x.value != 0.0 {
        DayAtMostQueried(cfg.backend, cfg.parse, rows, account, checkDay, day);
        LimitsMonotone(cfg.limits, RealOutflow(cfg.parse, rows, account, today) + x.value,
                       RealOutflow(cfg.parse, rows, account, window) + x.value);
      }
    }
  }

  /** A row of another account, or one that was not broadcast, does not count. */
  lemma OtherRowBounded(cfg: Setting, rows: Rows, hash: string, row: Row, account: Account)
    requires Bounded(cfg, rows, account) && hash !in rows && (row.account != account || row.status == Failed)
    ensures Bounded(cfg, rows[hash := row], account)
  {
    hide RealOutflow, WithinLimits, Read;
    var more := rows[hash := row];
    forall d
      ensures WithinLimits(cfg.limits, Finite(RealOutflow(cfg.parse, more, account, OneDay(cfg.backend, d))))
    {
      RealOutflowAdd(cfg.parse, rows, hash, row, account, OneDay(cfg.backend, d));
      assert WithinLimits(cfg.limits, Finite(RealOutflow(cfg.parse, rows, account, OneDay(cfg.backend, d))));
    }
  }

  lemma CleanWithout(parse: Parser, rows: Rows, hash: string, row: Row, account: Account)
    requires hash !in rows && Clean(parse, rows[hash := row], account)
    ensures Clean(parse, rows, account)
    ensures row.account == account && row.status != Failed ==> Read(parse, row.amount) != NaN
  {
    hide Read;
    var more := rows[hash := row];
    assert forall h :: h in rows ==> more[h] == rows[h];
    assert more[hash] == row;
  }

  lemma SendKeepsBounded(cfg: Setting, rows: Rows, req: Request, hash: string, broadcast: bool, checkDay: int, day: int)
    requires PlainParser(cfg.parse) && AmountsCount(cfg.parse, rows) && CleanIsBounded(cfg, rows)
    requires hash !in rows && checkDay <= day && Accepted(cfg, rows, req, checkDay)
    ensures CleanIsBounded(cfg, rows[hash := NewRow(req, broadcast, day)])
  {
    hide Clean, Bounded, AmountsCount, PlainParser, Accepted, Read, TrimSpace;
    var row, more := NewRow(req, broadcast, day), rows[hash := NewRow(req, broadcast, day)];
    if AnyLimit(cfg.limits) {
      forall account | Clean(cfg.parse, more, account)
        ensures Bounded(cfg, more, account)
      {
        CleanWithout(cfg.parse, rows, hash, row, account);
        if account == AccountOf(req) && broadcast {
          NewRowBounded(cfg, rows, req, hash, checkDay, day);
        } else {
          OtherRowBounded(cfg, rows, hash, row, account);
        }
      }
    }
  }

  lemma MarkedParts(parse: Parser, rows: Rows, hash: string, status: Status, account: Account, window: Window)
    requires hash in rows && rows[hash].status == Submitted && (status == Confirmed || status == Reverted)
    ensures var row := rows[hash].(status := status);
            Marked(rows, hash, status) == rows[hash := row]
            && Part(parse, row, account, window)
               == if status == Confirmed then Part(parse, rows[hash], account, window) else ZERO
  {
  }

  /** A receipt never raises an outflow: a confirmation changes none, and a revert takes the
      row's part off. */
  lemma MarkNeverRaises(parse: Parser, rows: Rows, hash: string, status: Status, account: Account, window: Window)
    requires AmountsCount(parse, rows) && hash in rows && rows[hash].status == Submitted
    requires status == Confirmed || status == Reverted
    ensures var before, after := Outflow(parse, rows, account, window),
                                 Outflow(parse, Marked(rows, hash, status), account, window);
            && (status == Confirmed ==> after == before)
            && (status == Reverted ==> before == Add(Part(parse, rows[hash], account, window), after))
            && (before != NaN ==> AtMost(after, before))
  {
    MarkedParts(parse, rows, hash, status, account, window);
    PartCountable(parse, rows[hash], account, window);
    var row := rows[hash].(status := status);
    var parts, more := Parts(parse, rows, account, window), rows[hash := row];
    hide Part, Countable, AtMost, Add, AmountsCount;
    assert Parts(parse, more, account, window) == parts[hash := Part(parse, row, account, window)];
    TotalReplace(parts, hash, Part(parse, row, account, window));
    TakenOff(Part(parse, rows[hash], account, window), Total(parts - {hash}));
  }

  lemma PartCountable(parse: Parser, row: Row, account: Account, window: Window)
    requires Countable(Read(parse, row.amount))
    ensures Countable(Part(parse, row, account, window))
  {
  }

  lemma TakenOff(part: Float, rest: Float)
    requires Countable(part)
    ensures Add(ZERO, rest) == rest
    ensures Add(part, rest) != NaN ==> AtMost(rest, Add(part, rest)) && AtMost(Add(part, rest), Add(part, rest))
  {
  }

  lemma MarkKeepsBounded(cfg: Setting, rows: Rows, hash: string, status: Status, account: Account)
    requires AmountsCount(cfg.parse, rows) && hash in rows && rows[hash].status == Submitted
    requires status == Confirmed || status == Reverted
    requires Bounded(cfg, rows, account)
    ensures Bounded(cfg, Marked(rows, hash, status), account)
  {
    var row, more := rows[hash].(status := status), Marked(rows, hash, status);
    hide RealOutflow, WithinLimits, Read, Weight;
    forall d
      ensures WithinLimits(cfg.limits, Finite(RealOutflow(cfg.parse, more, account, OneDay(cfg.backend, d))))
    {
      var window := OneDay(cfg.backend, d);
      RealOutflowReplace(cfg.parse, rows, hash, row, account, window);
      MarkedWeight(cfg.parse, rows[hash], status, account, window);
      assert WithinLimits(cfg.limits, Finite(RealOutflow(cfg.parse, rows, account, window)));
      LimitsMonotone(cfg.limits, RealOutflow(cfg.parse, more, account, window),
                     RealOutflow(cfg.parse, rows, account, window));
    }
  }

  lemma MarkedWeight(parse: Parser, row: Row, status: Status, account: Account, window: Window)
    requires row.status == Submitted && Countable(Read(parse, row.amount))
    requires status == Confirmed || status == Reverted
    ensures Weight(parse, row.(status := status), account, window) <= Weight(parse, row, account, window)
  {
  }

  lemma CleanMarked(parse: Parser, rows: Rows, hash: string, status: Status, account: Account)
    requires hash in rows && rows[hash].status == Submitted && status != Failed
    requires Clean(parse, Marked(rows, hash, status), account)
    ensures Clean(parse, rows, account)
  {
    hide Read;
    var more := Marked(rows, hash, status);
    assert forall h :: h in rows ==>
        h in more && more[h].account == rows[h].account && more[h].amount == rows[h].amount;
  }

  lemma MarkKeepsClean(cfg: Setting, rows: Rows, hash: string, status: Status)
    requires AmountsCount(cfg.parse, rows) && hash in rows && rows[hash].status == Submitted
    requires (status == Confirmed || status == Reverted) && CleanIsBounded(cfg, rows)
    ensures CleanIsBounded(cfg, Marked(rows, hash, status))
  {
    hide Clean, Bounded, AmountsCount, Marked;
    var more := Marked(rows, hash, status);
    if AnyLimit(cfg.limits) {
      forall account | Clean(cfg.parse, more, account)
        ensures Bounded(cfg, more, account)
      {
        CleanMarked(cfg.parse, rows, hash, status, account);
        MarkKeepsBounded(cfg, rows, hash, status, account);
      }
    }
  }

  lemma StepKeepsBounded(cfg: Setting, s: State, step: Step)
    requires PlainParser(cfg.parse) && AmountsCount(cfg.parse, s.rows) && PendingSubmitted(s)
    requires CleanIsBounded(cfg, s.rows)
    ensures CleanIsBounded(cfg, Apply(cfg, s, step).rows)
  {
    hide AmountsCount, CleanIsBounded, PlainParser, Accepted, Marked, NewRow, Signable;
    match step {
      case Send(req, hash, broadcast, recorded, checkDay, createDay) =>
        if SendDue(cfg, s, step) {
          SendKeepsBounded(cfg, s.rows, req, hash, broadcast, checkDay, createDay);
        }
      case Mark(receipt) =>
        if s.pending != [] && receipt.Some? {
          assert s.pending[0] in s.pending;
          MarkKeepsClean(cfg, s.rows, s.pending[0], if receipt.value then Confirmed else Reverted);
        }
      case _ =>
    }
  }

  lemma StepKeepsAmounts(cfg: Setting, s: State, step: Step)
    requires PlainParser(cfg.parse) && AmountsCount(cfg.parse, s.rows) && PendingSubmitted(s)
    ensures AmountsCount(cfg.parse, Apply(cfg, s, step).rows)
  {
    if step.Send? && SendDue(cfg, s, step) {
      RecordedAtMostChecked(cfg.parse, step.req);
    }
    hide PlainParser, Outflow, TrimSpace, Read, Countable;
  }

  lemma StepKeepsPending(cfg: Setting, s: State, step: Step)
    requires PendingSubmitted(s) && NoneSigned(s.rows)
    ensures PendingSubmitted(Apply(cfg, s, step)) && NoneSigned(Apply(cfg, s, step).rows)
  {
    hide Accepted, Signable, RecordedAmount, AccountOf;
    assert s.pending != [] ==> s.pending[0] in s.pending;
  }

  lemma StepKeepsSent(cfg: Setting, s: State, step: Step)
    requires PendingSubmitted(s) && RowsAreSent(s)
    ensures RowsAreSent(Apply(cfg, s, step))
  {
    hide Accepted, Signable, RecordedAmount, AccountOf, Distinct;
    assert s.pending != [] ==> s.pending[0] in s.pending;
  }

  lemma StepKeepsPassed(cfg: Setting, s: State, step: Step)
    requires AllPassed(cfg, s)
    ensures AllPassed(cfg, Apply(cfg, s, step))
  {
    if step.Send? && SendDue(cfg, s, step) {
      AcceptedIsRead(cfg, s.rows, step.req, step.checkDay);
    }
    hide Accepted, Signable, ParseAmount, Blank, Marked, NewRow;
  }

  lemma AcceptedIsRead(cfg: Setting, rows: Rows, req: Request, checkDay: int)
    requires Accepted(cfg, rows, req, checkDay)
    ensures Blank(req) || ParseAmount(cfg.parse, req.amount).Ok?
  {
  }

  lemma {:induction false} RunKeepsInvariant(cfg: Setting, steps: seq<Step>)
    requires PlainParser(cfg.parse)
    ensures Invariant(cfg, Run(cfg, steps))
  {
    if steps == [] {
      NothingOut(cfg, INITIAL.rows);
    } else {
      var s, step := Run(cfg, steps[..|steps| - 1]), steps[|steps| - 1];
      RunKeepsInvariant(cfg, steps[..|steps| - 1]);
      hide Apply, PlainParser, AmountsCount, PendingSubmitted, NoneSigned, CleanIsBounded, RowsAreSent, AllPassed;
      StepKeepsAmounts(cfg, s, step);
      StepKeepsPending(cfg, s, step);
      StepKeepsSent(cfg, s, step);
      StepKeepsPassed(cfg, s, step);
      StepKeepsBounded(cfg, s, step);
    }
  }

  /** No row is merely signed, whatever the parser makes of amounts. */
  lemma {:induction false} RunKeepsSubmitted(cfg: Setting, steps: seq<Step>)
    ensures PendingSubmitted(Run(cfg, steps)) && NoneSigned(Run(cfg, steps).rows)
  {
    if steps != [] {
      RunKeepsSubmitted(cfg, steps[..|steps| - 1]);
      hide Apply, PendingSubmitted, NoneSigned;
      StepKeepsPending(cfg, Run(cfg, steps[..|steps| - 1]), steps[|steps| - 1]);
    }
  }

  lemma NothingOut(cfg: Setting, rows: Rows)
    requires rows == map[]
    ensures CleanIsBounded(cfg, rows)
  {
    forall account
      ensures Bounded(cfg, rows, account)
    {
      forall day
        ensures WithinLimits(cfg.limits, Finite(RealOutflow(cfg.parse, rows, account, OneDay(cfg.backend, day))))
      {
        SumOfZeros(Weights(cfg.parse, rows, account, OneDay(cfg.backend, day)));
      }
    }
  }

  // ---- main results: the limits ------------------------------------------------------------

  /** While no broadcast row of an account reads as NaN, its recorded outflow, on every day
      for the Postgres store and altogether for the memory store, is within both limits. */
  lemma NeverOverLimit(cfg: Setting, steps: seq<Step>, account: Account, day: int)
    requires PlainParser(cfg.parse) && Clean(cfg.parse, Run(cfg, steps).rows, account)
    ensures WithinLimits(cfg.limits, Outflow(cfg.parse, Run(cfg, steps).rows, account, OneDay(cfg.backend, day)))
  {
    RunKeepsInvariant(cfg, steps);
    hide Run, PlainParser, Clean, RealOutflow, Outflow;
    var rows := Run(cfg, steps).rows;
    if AnyLimit(cfg.limits) {
      assert Bounded(cfg, rows, account);
      BoundedOutflow(cfg, rows, account, OneDay(cfg.backend, day));
    }
  }

  /** A counted row that reads as NaN makes the outflow NaN. */
  lemma NaNRowNaNOutflow(parse: Parser, rows: Rows, hash: string, account: Account, window: Window)
    requires hash in rows && Counted(rows[hash], account, window) && Read(parse, rows[hash].amount) == NaN
    ensures Outflow(parse, rows, account, window) == NaN
  {
    TotalWithNaN(Parts(parse, rows, account, window), hash);
  }

  /** From then on every amount of the account passes both limits, however large. */
  lemma NaNLiftsLimits(cfg: Setting, rows: Rows, hash: string, req: Request, checkDay: int)
    requires hash in rows && Counted(rows[hash], AccountOf(req), Queried(cfg.backend, checkDay))
    requires Read(cfg.parse, rows[hash].amount) == NaN && ParseAmount(cfg.parse, req.amount).Ok?
    ensures Accepted(cfg, rows, req, checkDay)
  {
    NaNRowNaNOutflow(cfg.parse, rows, hash, AccountOf(req), Queried(cfg.backend, checkDay));
    hide Outflow, TrimSpace;
  }

  /** A row keeps its account, amount and day, and fails only at birth. */
  lemma StepKeepsRow(cfg: Setting, s: State, step: Step, hash: string)
    requires PendingSubmitted(s) && hash in s.rows
    ensures var later := Apply(cfg, s, step).rows;
            hash in later && later[hash] == s.rows[hash].(status := later[hash].status)
            && (later[hash].status == Failed <==> s.rows[hash].status == Failed)
  {
    hide Accepted, Signable;
    assert s.pending != [] ==> s.pending[0] in s.pending;
  }

  lemma {:induction false} RowsPersist(cfg: Setting, steps: seq<Step>, n: nat, hash: string)
    requires PlainParser(cfg.parse) && n <= |steps| && hash in Run(cfg, steps[..n]).rows
    ensures var rows, later := Run(cfg, steps[..n]).rows, Run(cfg, steps).rows;
            hash in later && later[hash] == rows[hash].(status := later[hash].status)
            && (later[hash].status == Failed <==> rows[hash].status == Failed)
    decreases |steps|
  {
    if n == |steps| {
      assert steps[..n] == steps;
    } else {
      var before := steps[..|steps| - 1];
      assert before[..n] == steps[..n];
      RowsPersist(cfg, before, n, hash);
      RunKeepsInvariant(cfg, before);
      hide Apply, PlainParser;
      StepKeepsRow(cfg, Run(cfg, before), steps[|steps| - 1], hash);
    }
  }

  lemma BornSubmittedStep(cfg: Setting, s: State, step: Step, hash: string)
    requires hash !in s.rows && hash in Apply(cfg, s, step).rows
    ensures var row := Apply(cfg, s, step).rows[hash]; row.status == Submitted || row.status == Failed
  {
    hide SendDue;
  }

  /** Every row that is not failed was submitted at some point of the run. */
  lemma {:induction false} BornSubmitted(cfg: Setting, steps: seq<Step>, hash: string) returns (n: nat)
    requires PlainParser(cfg.parse) && hash in Run(cfg, steps).rows && Run(cfg, steps).rows[hash].status != Failed
    ensures n <= |steps| && hash in Run(cfg, steps[..n]).rows
    ensures Run(cfg, steps[..n]).rows[hash] == Run(cfg, steps).rows[hash].(status := Submitted)
  {
    var before := steps[..|steps| - 1];
    RunKeepsInvariant(cfg, before);
    hide Apply, PlainParser;
    if hash in Run(cfg, before).rows {
      StepKeepsRow(cfg, Run(cfg, before), steps[|steps| - 1], hash);
      n := BornSubmitted(cfg, before, hash);
      assert before[..n] == steps[..n];
    } else {
      BornSubmittedStep(cfg, Run(cfg, before), steps[|steps| - 1], hash);
      n := |steps|;
      assert steps[..n] == steps;
    }
  }

  lemma CleanBefore(cfg: Setting, steps: seq<Step>, n: nat, account: Account)
    requires PlainParser(cfg.parse) && n <= |steps| && Clean(cfg.parse, Run(cfg, steps).rows, account)
    ensures Clean(cfg.parse, Run(cfg, steps[..n]).rows, account)
  {
    hide Run, PlainParser, Read;
    forall h | h in Run(cfg, steps[..n]).rows
      ensures var rows, later := Run(cfg, steps[..n]).rows, Run(cfg, steps).rows;
              h in later && later[h] == rows[h].(status := later[h].status)
              && (later[h].status == Failed <==> rows[h].status == Failed)
    {
      RowsPersist(cfg, steps, n, h);
    }
  }

  /** The limits hold of an account at every moment of a run. */
  ghost predicate HoldsThroughout(cfg: Setting, steps: seq<Step>, account: Account) {
    forall n: nat, day :: n <= |steps| ==>
      WithinLimits(cfg.limits,
                   Outflow(cfg.parse, Run(cfg, steps[..n]).rows, account, OneDay(cfg.backend, day)))
  }

  /** Main result: given a limit, the recorded outflow of an account keeps it at every moment
      of a run, on every day, if and only if no broadcast amount of the account is recorded
      as a text that reads as NaN. */
  lemma LimitsHoldIff(cfg: Setting, steps: seq<Step>, account: Account)
    requires PlainParser(cfg.parse) && AnyLimit(cfg.limits)
    ensures HoldsThroughout(cfg, steps, account) <==> Clean(cfg.parse, Run(cfg, steps).rows, account)
  {
    hide Run, PlainParser, Outflow;
    var rows := Run(cfg, steps).rows;
    if Clean(cfg.parse, rows, account) {
      forall n: nat, day | n <= |steps|
        ensures WithinLimits(cfg.limits,
                             Outflow(cfg.parse, Run(cfg, steps[..n]).rows, account, OneDay(cfg.backend, day)))
      {
        CleanBefore(cfg, steps, n, account);
        NeverOverLimit(cfg, steps[..n], account, day);
      }
    } else {
      var h :| h in rows && rows[h].account == account && rows[h].status != Failed
               && Read(cfg.parse, rows[h].amount) == NaN;
      var n := BornSubmitted(cfg, steps, h);
      NaNRowNaNOutflow(cfg.parse, Run(cfg, steps[..n]).rows, h, account, OneDay(cfg.backend, rows[h].day));
    }
  }

  predicate Closed(row: Row) {
    row.status == Confirmed || row.status == Reverted || row.status == Failed
  }

  lemma StepKeepsClosed(cfg: Setting, s: State, step: Step, hash: string)
    requires PendingSubmitted(s) && hash in s.rows && Closed(s.rows[hash])
    ensures var later := Apply(cfg, s, step).rows; hash in later && later[hash] == s.rows[hash]
  {
    hide Accepted, Signable;
    assert s.pending != [] ==> s.pending[0] in s.pending;
  }

  /** Once confirmed, reverted or failed, a row never changes again, although the monitor
      works from a list that may be old. */
  lemma {:induction false} ClosedRowsStay(cfg: Setting, steps: seq<Step>, n: nat, hash: string)
    requires PlainParser(cfg.parse) && n <= |steps|
    requires var rows := Run(cfg, steps[..n]).rows; hash in rows && Closed(rows[hash])
    ensures var rows, later := Run(cfg, steps[..n]).rows, Run(cfg, steps).rows;
            hash in later && later[hash] == rows[hash]
    decreases |steps|
  {
    if n == |steps| {
      assert steps[..n] == steps;
    } else {
      var before := steps[..|steps| - 1];
      assert before[..n] == steps[..n];
      ClosedRowsStay(cfg, before, n, hash);
      RunKeepsInvariant(cfg, before);
      hide Apply, PlainParser;
      StepKeepsClosed(cfg, Run(cfg, before), steps[|steps| - 1], hash);
    }
  }
}

/** The custody guard of custody_guard.go on values: what it calls a risk, and what it
    does to its lock and to the incident table of store.go. Addresses and hashes are the
    texts they print as; times are nanoseconds. */
module CustodySpec {
  import opened Wrappers
  import opened Calldata

  // ---- incidents --------------------------------------------------------------------

  datatype Mode = Shadow | Paper | Live

  datatype Incident = Incident(reason: string, mode: Mode, createdAt: int, resolvedAt: Option<int>, note: string)

  type Incidents = seq<Incident>

  /** The unresolved incident with the latest creation time. */
  function Active(rows: Incidents): Option<Incident> {
    if rows == [] then None
    else
      var last, older := rows[|rows| - 1], Active(rows[..|rows| - 1]);
      if last.resolvedAt.Some? then older
      else if older.Some? && older.value.createdAt > last.createdAt then older
      else Some(last)
  }

  /** The partial unique index turns a second unresolved incident away. */
  function Opened(rows: Incidents, reason: string, mode: Mode, now: int): Incidents {
    if Active(rows).Some? then rows else rows + [Incident(reason, mode, now, None, "")]
  }

  function Resolution(row: Incident, note: string, now: int): Incident {
    if row.resolvedAt.None? then row.(resolvedAt := Some(now), note := note) else row
  }

  function Resolved(rows: Incidents, note: string, now: int): Incidents {
    if rows == [] then []
    else Resolved(rows[..|rows| - 1], note, now) + [Resolution(rows[|rows| - 1], note, now)]
  }

  // ---- risks ------------------------------------------------------------------------

  /** An EIP-7702 authorization: its signer, if it can be recovered, its delegate, and what
      each RPC answers, or does not, when asked for the hash of the delegate's code. */
  datatype Authorization = Authorization(authority: Option<string>, delegate: string, answers: seq<Option<string>>)

  /** The k-th answer is the first one given. */
  predicate FirstAnswer(answers: seq<Option<string>>, k: nat, hash: string) {
    k < |answers| && answers[k] == Some(hash) && forall l :: 0 <= l < k ==> answers[l].None?
  }

  /** The first answer is believed. */
  function Observed(answers: seq<Option<string>>): (hash: Option<string>)
    ensures hash.None? <==> forall k :: 0 <= k < |answers| ==> answers[k].None?
    ensures hash.Some? ==> exists k: nat :: FirstAnswer(answers, k, hash.value)
  {
    if answers == [] then None
    else
      var rest, last := answers[..|answers| - 1], answers[|answers| - 1];
      var earlier := Observed(rest);
      if earlier.Some?
      then
        assert forall k: nat :: FirstAnswer(rest, k, earlier.value) ==> FirstAnswer(answers, k, earlier.value);
        earlier
      else
        assert last.Some? ==> FirstAnswer(answers, |rest|, last.value);
        last
  }

  /** The observed hash is h exactly when some answer is the first and says h. */
  lemma ObservedIff(answers: seq<Option<string>>, hash: string)
    ensures Observed(answers) == Some(hash) <==> exists k: nat :: FirstAnswer(answers, k, hash)
  {
    if k: nat :| FirstAnswer(answers, k, hash) {
      var seen := Observed(answers);
      assert answers[k].Some?;
      var j: nat :| FirstAnswer(answers, j, seen.value);
      assert j == k;
    }
  }

  datatype Transaction = Transaction(hash: string, setCode: bool, data: seq<byte>, authorizations: seq<Authorization>)

  /** A trusted delegate whose code was not read has the zero hash. */
  const ZERO_HASH := ""

  datatype Rules = Rules(protected: set<string>, trusted: map<string, string>, allowedSelectors: set<seq<byte>>)

  datatype Risk = UnknownSelector | UnknownDelegate | CodeChanged | CodeUnverified

  /** The first four bytes, padded with zeros. */
  function CalldataSelector(data: seq<byte>): seq<byte> {
    (if |data| >= 4 then data[..4] else data + seq(4 - |data|, i => 0))
  }

  function RiskOf(rules: Rules, tx: Transaction, auth: Authorization): Option<Risk> {
    if !tx.setCode || auth.authority.None? || auth.authority.value !in rules.protected then None
    else if rules.allowedSelectors != {} && CalldataSelector(tx.data) !in rules.allowedSelectors
    then Some(UnknownSelector)
    else if auth.delegate !in rules.trusted then Some(UnknownDelegate)
    else if rules.trusted[auth.delegate] == ZERO_HASH then None
    else if Observed(auth.answers).None? then Some(CodeUnverified)
    else if Observed(auth.answers).value != rules.trusted[auth.delegate] then Some(CodeChanged)
    else None
  }

  const CHANGED := "EIP-7702 delegate hash alterado: "
  const NO_RPC := "sem RPC para verificar delegate "

  function ReasonOf(source: string, tx: Transaction, auth: Authorization, risk: Risk): string {
    match risk
    case UnknownSelector => "EIP-7702 selector nao permitido source=" + source + " tx=" + tx.hash
    case UnknownDelegate =>
      "EIP-7702 delegate desconhecido source=" + source
      + " wallet=" + (if auth.authority.Some? then auth.authority.value else "")
      + " delegate=" + auth.delegate + " tx=" + tx.hash
    case CodeChanged => CHANGED + auth.delegate
    case CodeUnverified => CHANGED + (NO_RPC + auth.delegate)
  }

  predicate Risky(rules: Rules, txs: seq<Transaction>, i: nat, j: nat) {
    i < |txs| && j < |txs[i].authorizations| && RiskOf(rules, txs[i], txs[i].authorizations[j]).Some?
  }

  /** No authorization before the j-th of the i-th transaction is a risk. */
  ghost predicate SafeBefore(rules: Rules, txs: seq<Transaction>, i: nat, j: nat) {
    forall k: nat, l: nat :: (k < i || (k == i && l < j)) ==> !Risky(rules, txs, k, l)
  }

  /** The first risk of a block, in block order. */
  ghost predicate FirstRisk(rules: Rules, txs: seq<Transaction>, i: nat, j: nat) {
    Risky(rules, txs, i, j) && SafeBefore(rules, txs, i, j)
  }

  /** What the lock says about the first risk. */
  ghost predicate ReportsFirst(rules: Rules, source: string, txs: seq<Transaction>, reason: string) {
    exists i: nat, j: nat :: FirstRisk(rules, txs, i, j)
      && reason == ReasonOf(source, txs[i], txs[i].authorizations[j],
                            RiskOf(rules, txs[i], txs[i].authorizations[j]).value)
  }

  ghost predicate AnyRisk(rules: Rules, txs: seq<Transaction>) {
    exists i: nat, j: nat :: Risky(rules, txs, i, j)
  }

  /** At most one pair of positions is the first risk, so the reason is determined. */
  lemma FirstRiskUnique(rules: Rules, txs: seq<Transaction>, i: nat, j: nat, k: nat, l: nat)
    requires FirstRisk(rules, txs, i, j) && FirstRisk(rules, txs, k, l)
    ensures i == k && j == l
  {
    hide Risky;
  }

  // ---- the guard ----------------------------------------------------------------------

  datatype Config = Config(enabled: bool, mode: Mode, cooldownSeconds: int)

  const SECOND := 1_000_000_000

  /** `scanning` tells that Start reached its polling loop. */
  datatype State = State(cfg: Config, locked: bool, reason: string, scanning: bool, incidents: Incidents)

  function Lock(s: State, reason: string, now: int): State {
    if s.cfg.mode.Shadow? then s
    else s.(locked := true, reason := reason, incidents := Opened(s.incidents, reason, s.cfg.mode, now))
  }

  predicate Cooling(cfg: Config, incident: Incident, now: int) {
    cfg.cooldownSeconds > 0 && now - incident.createdAt < cfg.cooldownSeconds * SECOND
  }

  predicate UnlockRefused(s: State, now: int) {
    Active(s.incidents).Some? && Cooling(s.cfg, Active(s.incidents).value, now)
  }

  function Unlock(s: State, note: string, now: int): State {
    if UnlockRefused(s, now) then s
    else s.(locked := false, reason := "",
            incidents := if Active(s.incidents).Some? then Resolved(s.incidents, note, now) else s.incidents)
  }

  function PersistentReason(incident: Incident): string {
    "incidente persistente: " + incident.reason
  }

  function LoadFailure(error: string): string {
    "falha ao carregar hashes dos delegates confiaveis: " + error
  }

  /** A new process: a fresh guard, started at once if it is enabled. */
  function Restart(s: State, cfg: Config, loadError: Option<string>, now: int): State {
    var blank := State(cfg, false, "", false, s.incidents);
    if !cfg.enabled then blank
    else
      var active := Active(s.incidents);
      var loaded :=
        if active.Some? then blank.(locked := true, reason := PersistentReason(active.value))
        else blank;
      if loadError.Some?
      then Lock(loaded, LoadFailure(loadError.value), now)
      else loaded.(scanning := true)
  }
}

/** What the guard keeps over whole runs of scans, unlocks and restarts, whatever the
    configuration of each process. */
module CustodyRuns {
  import opened Wrappers
  import opened CustodySpec

  /** A scan of a started guard either finds a reason to lock or finds none. */
  datatype Step =
    | Scan(found: Option<string>, now: int)
    | TryUnlock(note: string, now: int)
    | NewProcess(cfg: Config, loadError: Option<string>, now: int)

  function Apply(s: State, step: Step): State {
    match step
    case Scan(found, now) => if s.scanning && !s.locked && found.Some? then Lock(s, found.value, now) else s
    case TryUnlock(note, now) => Unlock(s, note, now)
    case NewProcess(cfg, loadError, now) => Restart(s, cfg, loadError, now)
  }

  /** The first process starts with an empty table. */
  function Run(first: Config, loadError: Option<string>, now: int, steps: seq<Step>): State {
    if steps == [] then Restart(State(first, false, "", false, []), first, loadError, now)
    else Apply(Run(first, loadError, now, steps[..|steps| - 1]), steps[|steps| - 1])
  }

  predicate AtMostOneOpen(rows: Incidents) {
    forall i, j :: 0 <= i < j < |rows| && rows[i].resolvedAt.None? ==> rows[j].resolvedAt.Some?
  }

  predicate AnyOpen(rows: Incidents) {
    exists i :: 0 <= i < |rows| && rows[i].resolvedAt.None?
  }

  /** The guard is locked exactly when it is enabled and the table holds an unresolved
      incident; only an enabled guard scans. */
  predicate InStep(s: State) {
    (s.locked <==> s.cfg.enabled && Active(s.incidents).Some?) && (s.scanning ==> s.cfg.enabled)
  }

  lemma {:induction false} ActiveIsOpen(rows: Incidents)
    ensures Active(rows).Some? <==> AnyOpen(rows)
    ensures Active(rows).Some? ==> Active(rows).value in rows && Active(rows).value.resolvedAt.None?
  {
    if rows != [] {
      var m := |rows| - 1;
      ActiveIsOpen(rows[..m]);
      if i :| 0 <= i < m && rows[..m][i].resolvedAt.None? {
        assert rows[i].resolvedAt.None?;
      }
    }
  }

  lemma {:induction false} ResolvedAt(rows: Incidents, note: string, now: int)
    ensures |Resolved(rows, note, now)| == |rows|
    ensures forall i :: 0 <= i < |rows| ==> Resolved(rows, note, now)[i] == Resolution(rows[i], note, now)
  {
    hide Resolution;
    if rows != [] {
      ResolvedAt(rows[..|rows| - 1], note, now);
    }
  }

  /** Resolving leaves no incident open, and every resolved one as it was. */
  lemma ResolvedClosesAll(rows: Incidents, note: string, now: int)
    ensures |Resolved(rows, note, now)| == |rows|
    ensures forall i :: 0 <= i < |rows| ==> Resolved(rows, note, now)[i] == Resolution(rows[i], note, now)
    ensures Active(Resolved(rows, note, now)) == None
  {
    hide Resolved, Active;
    ResolvedAt(rows, note, now);
    ActiveIsOpen(Resolved(rows, note, now));
  }

  lemma OpenedHasOne(rows: Incidents, reason: string, mode: Mode, now: int)
    requires AtMostOneOpen(rows)
    ensures var more := Opened(rows, reason, mode, now);
            AtMostOneOpen(more) && Active(more).Some? && rows <= more
            && (Active(rows).Some? ==> Active(more) == Active(rows))
            && (Active(rows).None? ==> Active(more) == Some(Incident(reason, mode, now, None, "")))
  {
    ActiveIsOpen(rows);
    if Active(rows).None? {
      assert Opened(rows, reason, mode, now)[..|rows|] == rows;
    }
  }

  lemma LockKeeps(s: State, reason: string, now: int)
    requires AtMostOneOpen(s.incidents) && s.cfg.enabled && (s.locked <==> Active(s.incidents).Some?)
    ensures var t := Lock(s, reason, now);
            AtMostOneOpen(t.incidents) && (t.locked <==> Active(t.incidents).Some?) && t.cfg == s.cfg
  {
    hide AtMostOneOpen, Active, Opened;
    OpenedHasOne(s.incidents, reason, s.cfg.mode, now);
  }

  lemma StepKeeps(s: State, step: Step)
    requires AtMostOneOpen(s.incidents) && InStep(s)
    ensures AtMostOneOpen(Apply(s, step).incidents) && InStep(Apply(s, step))
  {
    match step {
      case Scan(found, now) =>
        if s.scanning && found.Some? {
          LockKeeps(s, found.value, now);
        }
      case TryUnlock(note, now) =>
        ResolvedClosesAll(s.incidents, note, now);
      case NewProcess(cfg, loadError, now) =>
        RestartKeeps(s, cfg, loadError, now);
    }
  }

  lemma RestartKeeps(s: State, cfg: Config, loadError: Option<string>, now: int)
    requires AtMostOneOpen(s.incidents)
    ensures var t := Restart(s, cfg, loadError, now); AtMostOneOpen(t.incidents) && InStep(t)
  {
    hide AtMostOneOpen, Active;
    if cfg.enabled && loadError.Some? {
      OpenedHasOne(s.incidents, LoadFailure(loadError.value), cfg.mode, now);
    }
  }

  /** Main result: over any run, in any mode and however the configuration changes between
      processes, at most one incident is unresolved, and the guard is locked if and only
      if it is enabled and there is one. */
  lemma {:induction false} LockedIffUnresolved(first: Config, loadError: Option<string>, now: int, steps: seq<Step>)
    ensures var s := Run(first, loadError, now, steps);
            AtMostOneOpen(s.incidents) && (s.locked <==> s.cfg.enabled && AnyOpen(s.incidents))
    ensures InStep(Run(first, loadError, now, steps))
  {
    if steps == [] {
      RestartKeeps(State(first, false, "", false, []), first, loadError, now);
    } else {
      var before := steps[..|steps| - 1];
      LockedIffUnresolved(first, loadError, now, before);
      hide Apply, AtMostOneOpen, AnyOpen, InStep;
      StepKeeps(Run(first, loadError, now, before), steps[|steps| - 1]);
    }
    assert InStep(Run(first, loadError, now, steps));
    ActiveIsOpen(Run(first, loadError, now, steps).incidents);
  }

  // ---- how long a lockdown lasts -----------------------------------------------------

  /** The step comes before the incident is `cooldown` seconds old, and no process it
      starts has a shorter cooldown. */
  predicate Early(step: Step, incident: Incident, cooldown: int) {
    step.now - incident.createdAt < cooldown * SECOND
    && (step.NewProcess? ==> step.cfg.cooldownSeconds >= cooldown)
  }

  lemma EarlyStepKeepsIncident(s: State, step: Step, incident: Incident, cooldown: int)
    requires AtMostOneOpen(s.incidents) && Active(s.incidents) == Some(incident)
    requires cooldown > 0 && s.cfg.cooldownSeconds >= cooldown && Early(step, incident, cooldown)
    ensures var t := Apply(s, step); Active(t.incidents) == Some(incident) && t.cfg.cooldownSeconds >= cooldown
  {
    hide AtMostOneOpen, Active, Resolved, PersistentReason, LoadFailure;
  }

  /** Main result: from the moment an incident is opened until the cooldown has passed it
      stays the unresolved one, through repeated locks, refused unlocks and restarts, and
      every enabled guard is locked all that time. */
  lemma {:induction false} LockdownLasts(first: Config, loadError: Option<string>, now: int, steps: seq<Step>, n: nat,
                                         incident: Incident, cooldown: int)
    requires n <= |steps| && cooldown > 0
    requires var s := Run(first, loadError, now, steps[..n]);
             Active(s.incidents) == Some(incident) && s.cfg.cooldownSeconds >= cooldown
    requires forall i :: n <= i < |steps| ==> Early(steps[i], incident, cooldown)
    ensures var t := Run(first, loadError, now, steps);
            Active(t.incidents) == Some(incident) && t.cfg.cooldownSeconds >= cooldown
            && (t.cfg.enabled ==> t.locked)
    decreases |steps|
  {
    LockedIffUnresolved(first, loadError, now, steps);
    if n == |steps| {
      assert steps[..n] == steps;
    } else {
      var before := steps[..|steps| - 1];
      assert before[..n] == steps[..n];
      LockdownLasts(first, loadError, now, before, n, incident, cooldown);
      LockedIffUnresolved(first, loadError, now, before);
      hide Apply, Early, Active;
      EarlyStepKeepsIncident(Run(first, loadError, now, before), steps[|steps| - 1], incident, cooldown);
    }
  }

  /** What a lock starts: outside shadow mode the incident it leaves is the one already
      open or a new one created now. */
  lemma LockOpens(s: State, reason: string, now: int)
    requires AtMostOneOpen(s.incidents) && !s.cfg.mode.Shadow?
    ensures var t := Lock(s, reason, now);
            t.locked && Active(t.incidents)
            == if Active(s.incidents).Some? then Active(s.incidents)
               else Some(Incident(reason, s.cfg.mode, now, None, ""))
  {
    OpenedHasOne(s.incidents, reason, s.cfg.mode, now);
  }

  /** The cooldown is tight: an unlock that comes later succeeds. */
  lemma LateUnlockSucceeds(s: State, note: string, now: int)
    requires Active(s.incidents).Some?
    requires now - Active(s.incidents).value.createdAt >= s.cfg.cooldownSeconds * SECOND
    ensures var t := Unlock(s, note, now); !t.locked && !AnyOpen(t.incidents)
    ensures var t := Unlock(s, note, now);
            |t.incidents| == |s.incidents| && forall i :: 0 <= i < |s.incidents| ==>
              t.incidents[i] == if s.incidents[i].resolvedAt.Some? then s.incidents[i]
                                else s.incidents[i].(resolvedAt := Some(now), note := note)
  {
    ResolvedClosesAll(s.incidents, note, now);
    ActiveIsOpen(Unlock(s, note, now).incidents);
  }

  /** Resolved incidents are history: no step changes or drops them. */
  lemma {:induction false} HistoryStays(first: Config, loadError: Option<string>, now: int, steps: seq<Step>, n: nat,
                                        i: nat)
    requires n <= |steps|
    requires var rows := Run(first, loadError, now, steps[..n]).incidents; i < |rows| && rows[i].resolvedAt.Some?
    ensures var rows, later := Run(first, loadError, now, steps[..n]).incidents,
                               Run(first, loadError, now, steps).incidents;
            i < |later| && later[i] == rows[i]
    decreases |steps|
  {
    if n == |steps| {
      assert steps[..n] == steps;
    } else {
      var before := steps[..|steps| - 1];
      assert before[..n] == steps[..n];
      HistoryStays(first, loadError, now, before, n, i);
      StepKeepsHistory(Run(first, loadError, now, before), steps[|steps| - 1], i);
    }
  }

  lemma StepKeepsHistory(s: State, step: Step, i: nat)
    requires i < |s.incidents| && s.incidents[i].resolvedAt.Some?
    ensures var later := Apply(s, step).incidents; i < |later| && later[i] == s.incidents[i]
  {
    hide Active;
    if step.TryUnlock? {
      ResolvedClosesAll(s.incidents, step.note, step.now);
    }
  }
}

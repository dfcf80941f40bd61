/** The claim, execute, save-or-release protocol that the three signing handlers of
    main.go run against the idempotency part of the store (store.go). Any number of
    handlers interleave; every store call is one atomic step. The memory store claims
    in one step; the Postgres store looks the result up and inserts its lock in two. */
module Idempotency {
  import opened Text

  datatype Backend = Memory | Postgres

  datatype Response = Response(txHash: string, from: string, network: string)

  datatype Endpoint = Transfer | Settlement(operationId: string) | ContractCall

  /** Settlements fall back to their operation id; the other two use the key as sent. */
  function EffectiveKey(endpoint: Endpoint, key: string): string {
    if endpoint.Settlement? && TrimSpace(key) == "" then TrimSpace(endpoint.operationId) else key
  }

  datatype Outcome =
    | Replied(response: Response)
    | InProgress
    | Unavailable
    | BadGateway
    | Abandoned

  datatype Phase =
    | Arrived
    | LookedUp
    | Executing
    | Executed(response: Response)
    | ExecutionFailed
    | Finished(outcome: Outcome)

  datatype Handler = Handler(key: string, phase: Phase)

  /** A successful execution, and whether a result for its key was already stored. */
  datatype Execution = Execution(key: string, response: Response, stale: bool)

  datatype State = State(
    results: map<string, Response>,
    locks: set<string>,
    handlers: seq<Handler>,
    executions: seq<Execution>)

  const INITIAL := State(map[], {}, [], [])

  // ---- the store calls ---------------------------------------------------------

  datatype Claim = Done(response: Response) | Refused | Granted

  function ClaimAnswer(results: map<string, Response>, locks: set<string>, key: string): Claim {
    if key == "" then Granted
    else if key in results then Done(results[key])
    else if key in locks then Refused
    else Granted
  }

  function LockedBy(locks: set<string>, key: string): set<string> {
    if key == "" then locks else locks + {key}
  }

  function Unlocked(locks: set<string>, key: string): set<string> {
    if key == "" then locks else locks - {key}
  }

  /** The memory store overwrites; Postgres keeps the response it already has. */
  function Saved(backend: Backend, results: map<string, Response>, key: string, response: Response)
    : map<string, Response>
  {
    if key == "" || (backend.Postgres? && key in results) then results else results[key := response]
  }

  // ---- the steps -----------------------------------------------------------------

  datatype Step =
    | Arrive(endpoint: Endpoint, key: string)
    | ClaimResult(h: nat)
    | LookUp(h: nat)
    | InsertLock(h: nat)
    | ClaimError(h: nat)
    | Execute(h: nat, response: Response)
    | FailExecution(h: nat)
    | ReleaseClaim(h: nat, stored: bool)
    | SaveResult(h: nat, stored: bool)
    | Abandon(h: nat)

  function SetPhase(s: State, h: nat, phase: Phase): State
    requires h < |s.handlers|
  {
    s.(handlers := s.handlers[h := s.handlers[h].(phase := phase)])
  }

  /** Handler h is at this point of its run. */
  predicate At(s: State, h: nat, phase: Phase) {
    h < |s.handlers| && s.handlers[h].phase == phase
  }

  function Claimed(s: State, h: nat, answer: Claim): State
    requires h < |s.handlers|
  {
    match answer
    case Done(response) => SetPhase(s, h, Finished(Replied(response)))
    case Refused => SetPhase(s, h, Finished(InProgress))
    case Granted => SetPhase(s.(locks := LockedBy(s.locks, s.handlers[h].key)), h, Executing)
  }

  /** What a step leaves; a step that is not due leaves the state alone. */
  function Apply(backend: Backend, s: State, step: Step): State {
    match step
    case Arrive(endpoint, key) =>
      s.(handlers := s.handlers + [Handler(EffectiveKey(endpoint, key), Arrived)])
    case ClaimResult(h) =>
      if backend.Memory? && At(s, h, Arrived)
      then Claimed(s, h, ClaimAnswer(s.results, s.locks, s.handlers[h].key)) else s
    case LookUp(h) =>
      if backend.Postgres? && At(s, h, Arrived)
      then
        var key := s.handlers[h].key;
        if key == "" then Claimed(s, h, Granted)
        else if key in s.results then Claimed(s, h, Done(s.results[key]))
        else SetPhase(s, h, LookedUp)
      else s
    case InsertLock(h) =>
      if backend.Postgres? && At(s, h, LookedUp)
      then Claimed(s, h, if s.handlers[h].key in s.locks then Refused else Granted) else s
    case ClaimError(h) =>
      if At(s, h, Arrived) || At(s, h, LookedUp) then SetPhase(s, h, Finished(Unavailable)) else s
    case Execute(h, response) =>
      if At(s, h, Executing)
      then
        var key := s.handlers[h].key;
        SetPhase(s.(executions := s.executions + [Execution(key, response, key in s.results)]),
                 h, Executed(response))
      else s
    case FailExecution(h) =>
      if At(s, h, Executing) then SetPhase(s, h, ExecutionFailed) else s
    case ReleaseClaim(h, stored) =>
      if At(s, h, ExecutionFailed)
      then SetPhase(s.(locks := if stored then Unlocked(s.locks, s.handlers[h].key) else s.locks),
                    h, Finished(BadGateway))
      else s
    case SaveResult(h, stored) =>
      if h < |s.handlers| && s.handlers[h].phase.Executed?
      then
        var key, response := s.handlers[h].key, s.handlers[h].phase.response;
        if stored
        then SetPhase(s.(results := Saved(backend, s.results, key, response), locks := Unlocked(s.locks, key)),
                      h, Finished(Replied(response)))
        else SetPhase(s, h, Finished(Unavailable))
      else s
    case Abandon(h) =>
      if h < |s.handlers| && !s.handlers[h].phase.Finished?
      then SetPhase(s, h, Finished(Abandoned)) else s
  }

  function Run(backend: Backend, s: State, steps: seq<Step>): State {
    if steps == [] then s
    else Apply(backend, Run(backend, s, steps[..|steps| - 1]), steps[|steps| - 1])
  }

  // ---- what every step keeps -------------------------------------------------------

  /** Between a granted claim and its save or release. */
  predicate Holds(handler: Handler) {
    handler.phase.Executing? || handler.phase.Executed? || handler.phase.ExecutionFailed?
  }

  /** Holders own the lock of their key. */
  predicate HoldersLock(s: State) {
    forall i :: 0 <= i < |s.handlers| && Holds(s.handlers[i]) && s.handlers[i].key != "" ==>
      s.handlers[i].key in s.locks
  }

  /** Mutual exclusion: no two handlers hold the same key. */
  predicate OneHolder(s: State) {
    forall i, j :: (0 <= i < j < |s.handlers| && Holds(s.handlers[i]) && Holds(s.handlers[j])
                    && s.handlers[i].key != "") ==> s.handlers[i].key != s.handlers[j].key
  }

  predicate WasExecuted(executions: seq<Execution>, key: string, response: Response) {
    exists e :: e in executions && e.key == key && e.response == response
  }

  /** Every stored response comes from an execution of its key. */
  predicate ResultsGenuine(s: State) {
    forall k :: k in s.results ==> k != "" && WasExecuted(s.executions, k, s.results[k])
  }

  /** Every carried or given response comes from an execution of the handler's key. */
  predicate AnswersGenuine(s: State) {
    forall i :: 0 <= i < |s.handlers| ==> AnswerGenuine(s.executions, s.handlers[i])
  }

  predicate AnswerGenuine(executions: seq<Execution>, handler: Handler) {
    (handler.phase.Executed? ==> WasExecuted(executions, handler.key, handler.phase.response))
    && (handler.phase.Finished? && handler.phase.outcome.Replied? ==>
          WasExecuted(executions, handler.key, handler.phase.outcome.response))
  }

  /** No handler of this key is about to execute or about to release the lock. */
  predicate NoneDue(s: State, key: string) {
    forall i :: 0 <= i < |s.handlers| && s.handlers[i].key == key ==>
      !s.handlers[i].phase.Executing? && !s.handlers[i].phase.ExecutionFailed?
  }

  /** The key has its result stored, or is locked with nobody left to run it. */
  predicate KeySpent(s: State, key: string) {
    key in s.results || (key in s.locks && NoneDue(s, key))
  }

  /** Once executed, a key is spent. */
  predicate Spent(s: State) {
    forall i :: 0 <= i < |s.executions| && s.executions[i].key != "" ==> KeySpent(s, s.executions[i].key)
  }

  predicate HasEarlier(executions: seq<Execution>, j: nat)
    requires j < |executions|
  {
    exists i :: 0 <= i < j && executions[i].key == executions[j].key
  }

  /** An execution is stale exactly when its key was executed before. */
  predicate StaleIsRepeat(executions: seq<Execution>) {
    forall j :: 0 <= j < |executions| && executions[j].key != "" ==>
      (executions[j].stale <==> HasEarlier(executions, j))
  }

  /** With the one-step claim a holder's key has no stored result. */
  predicate NotYetStored(s: State) {
    forall i :: 0 <= i < |s.handlers| && Holds(s.handlers[i]) ==> s.handlers[i].key !in s.results
  }

  lemma KeepsHoldersLock(backend: Backend, s: State, step: Step)
    requires HoldersLock(s) && OneHolder(s)
    ensures HoldersLock(Apply(backend, s, step))
  {
  }

  /** The handler a step is about. */
  function Touched(step: Step): nat {
    if step.Arrive? then 0 else step.h
  }

  /** Only the handler a step is about can become a holder, and only of a free lock. */
  lemma NewHolder(backend: Backend, s: State, step: Step)
    ensures var t := Apply(backend, s, step);
            |s.handlers| <= |t.handlers|
            && (forall i :: |s.handlers| <= i < |t.handlers| ==> !Holds(t.handlers[i]))
            && forall i :: 0 <= i < |s.handlers| ==>
                 t.handlers[i].key == s.handlers[i].key
                 && (Holds(t.handlers[i]) && !Holds(s.handlers[i]) && s.handlers[i].key != "" ==>
                       i == Touched(step) && s.handlers[i].key !in s.locks)
  {
    OthersStay(backend, s, step);
    var h := Touched(step);
    if h < |s.handlers| && !Holds(s.handlers[h]) {
      TouchedHolder(backend, s, step);
    }
    hide Apply, Holds;
  }

  /** A step changes no handler but the one it is about, and no key. */
  lemma OthersStay(backend: Backend, s: State, step: Step)
    ensures var t := Apply(backend, s, step);
            |s.handlers| <= |t.handlers|
            && (forall i :: |s.handlers| <= i < |t.handlers| ==> !Holds(t.handlers[i]))
            && forall i :: 0 <= i < |s.handlers| ==>
                 t.handlers[i].key == s.handlers[i].key && (i != Touched(step) ==> t.handlers[i] == s.handlers[i])
  {
    hide EffectiveKey, LockedBy, Unlocked, Saved;
  }

  lemma TouchedHolder(backend: Backend, s: State, step: Step)
    requires Touched(step) < |s.handlers| && !Holds(s.handlers[Touched(step)])
    ensures var t, h := Apply(backend, s, step), Touched(step);
            h < |t.handlers| && (Holds(t.handlers[h]) && s.handlers[h].key != "" ==> s.handlers[h].key !in s.locks)
  {
    hide EffectiveKey, LockedBy, Unlocked, Saved;
  }

  lemma KeepsOneHolder(backend: Backend, s: State, step: Step)
    requires HoldersLock(s) && OneHolder(s)
    ensures OneHolder(Apply(backend, s, step))
  {
    NewHolder(backend, s, step);
    hide Apply, Holds;
  }

  /** A step changes at most the handler it names and appends at most one of its
      executions. */
  lemma ExecutionsGrow(backend: Backend, s: State, step: Step)
    ensures s.executions <= Apply(backend, s, step).executions
    ensures forall k, r :: WasExecuted(s.executions, k, r) ==>
              WasExecuted(Apply(backend, s, step).executions, k, r)
    ensures step.Execute? && At(s, step.h, Executing) ==>
              WasExecuted(Apply(backend, s, step).executions, s.handlers[step.h].key, step.response)
  {
    var more := Apply(backend, s, step).executions;
    assert forall e :: e in s.executions ==> e in more;
    if step.Execute? && At(s, step.h, Executing) {
      assert more[|s.executions|] in more;
    }
  }

  lemma KeepsResultsGenuine(backend: Backend, s: State, step: Step)
    requires ResultsGenuine(s) && AnswersGenuine(s)
    ensures ResultsGenuine(Apply(backend, s, step))
  {
    ExecutionsGrow(backend, s, step);
    hide WasExecuted;
  }

  lemma KeepsAnswersGenuine(backend: Backend, s: State, step: Step)
    requires ResultsGenuine(s) && AnswersGenuine(s)
    ensures AnswersGenuine(Apply(backend, s, step))
  {
    ExecutionsGrow(backend, s, step);
    hide WasExecuted;
  }

  lemma StepKeepsKeySpent(backend: Backend, s: State, step: Step, key: string)
    requires HoldersLock(s) && KeySpent(s, key) && key != ""
    ensures KeySpent(Apply(backend, s, step), key)
  {
  }

  lemma ExecuteSpends(backend: Backend, s: State, h: nat, response: Response)
    requires HoldersLock(s) && OneHolder(s) && At(s, h, Executing) && s.handlers[h].key != ""
    ensures KeySpent(Apply(backend, s, Execute(h, response)), s.handlers[h].key)
  {
  }

  /** A step executes the key of the handler it names, or nothing. */
  lemma NewExecution(backend: Backend, s: State, step: Step)
    ensures var more := Apply(backend, s, step).executions;
            if step.Execute? && At(s, step.h, Executing)
            then |more| == |s.executions| + 1 && more[..|s.executions|] == s.executions
                 && more[|s.executions|].key == s.handlers[step.h].key
            else more == s.executions
  {
  }

  lemma KeepsSpent(backend: Backend, s: State, step: Step)
    requires HoldersLock(s) && OneHolder(s) && Spent(s)
    ensures Spent(Apply(backend, s, step))
  {
    hide Apply, HoldersLock, OneHolder, NoneDue;
    NewExecution(backend, s, step);
    var t := Apply(backend, s, step);
    forall i | 0 <= i < |t.executions| && t.executions[i].key != ""
      ensures KeySpent(t, t.executions[i].key)
    {
      if i < |s.executions| {
        assert t.executions[i] == s.executions[i];
        assert KeySpent(s, s.executions[i].key);
        StepKeepsKeySpent(backend, s, step, s.executions[i].key);
      } else {
        ExecuteSpends(backend, s, step.h, step.response);
      }
    }
  }

  /** The key of a handler about to execute has a result exactly if it was executed. */
  lemma StoredIffExecuted(s: State, h: nat)
    requires ResultsGenuine(s) && Spent(s) && At(s, h, Executing) && s.handlers[h].key != ""
    ensures s.handlers[h].key in s.results
       <==> exists i :: 0 <= i < |s.executions| && s.executions[i].key == s.handlers[h].key
  {
    var key := s.handlers[h].key;
    if key in s.results {
      assert WasExecuted(s.executions, key, s.results[key]);
      var e :| e in s.executions && e.key == key && e.response == s.results[key];
      var i :| 0 <= i < |s.executions| && s.executions[i] == e;
    }
    if i :| 0 <= i < |s.executions| && s.executions[i].key == key {
      assert KeySpent(s, key);
    }
  }

  lemma KeepsStaleIsRepeat(backend: Backend, s: State, step: Step)
    requires ResultsGenuine(s) && Spent(s) && StaleIsRepeat(s.executions)
    ensures StaleIsRepeat(Apply(backend, s, step).executions)
  {
    var more, n := Apply(backend, s, step).executions, |s.executions|;
    NewExecution(backend, s, step);
    if step.Execute? && At(s, step.h, Executing) {
      assert more[n].stale <==> s.handlers[step.h].key in s.results;
      if s.handlers[step.h].key != "" {
        StoredIffExecuted(s, step.h);
      }
      hide Apply, At, ResultsGenuine, Spent;
      SameEarlier(s.executions, more);
      assert forall i :: 0 <= i < n ==> more[i] == s.executions[i];
    }
  }

  lemma SameEarlier(executions: seq<Execution>, more: seq<Execution>)
    requires executions <= more
    ensures forall j :: 0 <= j < |executions| ==> (HasEarlier(more, j) <==> HasEarlier(executions, j))
  {
    forall j | 0 <= j < |executions|
      ensures HasEarlier(more, j) <==> HasEarlier(executions, j)
    {
      assert forall i :: 0 <= i <= j ==> more[i] == executions[i];
    }
  }

  lemma KeepsNotYetStored(s: State, step: Step)
    requires HoldersLock(s) && OneHolder(s) && ResultsGenuine(s) && NotYetStored(s)
    ensures NotYetStored(Apply(Memory, s, step))
  {
    hide WasExecuted;
  }

  ghost predicate Invariant(backend: Backend, s: State) {
    && HoldersLock(s) && OneHolder(s)
    && ResultsGenuine(s) && AnswersGenuine(s)
    && Spent(s) && StaleIsRepeat(s.executions)
    && (backend.Memory? ==> NotYetStored(s) && NeverStale(s.executions))
  }

  predicate NeverStale(executions: seq<Execution>) {
    forall j :: 0 <= j < |executions| ==> !executions[j].stale
  }

  lemma KeepsNeverStale(s: State, step: Step)
    requires NotYetStored(s) && NeverStale(s.executions)
    ensures NeverStale(Apply(Memory, s, step).executions)
  {
  }

  lemma {:induction false} RunKeepsInvariant(backend: Backend, steps: seq<Step>)
    ensures Invariant(backend, Run(backend, INITIAL, steps))
  {
    if steps != [] {
      var before, step := steps[..|steps| - 1], steps[|steps| - 1];
      RunKeepsInvariant(backend, before);
      hide Apply, HoldersLock, OneHolder, ResultsGenuine, AnswersGenuine, Spent, StaleIsRepeat,
           NotYetStored, NeverStale;
      var s := Run(backend, INITIAL, before);
      KeepsHoldersLock(backend, s, step);
      KeepsOneHolder(backend, s, step);
      KeepsResultsGenuine(backend, s, step);
      KeepsAnswersGenuine(backend, s, step);
      KeepsSpent(backend, s, step);
      KeepsStaleIsRepeat(backend, s, step);
      if backend.Memory? {
        KeepsNotYetStored(s, step);
        KeepsNeverStale(s, step);
      }
    }
  }

  // ---- main results ------------------------------------------------------------------

  /** With either store, at any moment at most one handler is between a granted claim
      of a key and its save or release, and it owns the key's lock. */
  lemma MutualExclusion(backend: Backend, steps: seq<Step>, i: nat, j: nat)
    requires var s := Run(backend, INITIAL, steps);
             i < |s.handlers| && j < |s.handlers| && s.handlers[i].key == s.handlers[j].key != ""
             && Holds(s.handlers[i]) && Holds(s.handlers[j])
    ensures i == j && Run(backend, INITIAL, steps).handlers[i].key in Run(backend, INITIAL, steps).locks
  {
    RunKeepsInvariant(backend, steps);
  }

  /** At-most-once, memory store: no key is successfully executed twice, whatever the
      interleaving and whichever saves and releases fail. */
  lemma AtMostOnce(steps: seq<Step>, i: nat, j: nat)
    requires var executions := Run(Memory, INITIAL, steps).executions;
             i < |executions| && j < |executions| && executions[i].key == executions[j].key != ""
    ensures i == j
  {
    RunKeepsInvariant(Memory, steps);
    var executions := Run(Memory, INITIAL, steps).executions;
    assert StaleIsRepeat(executions) && NeverStale(executions);
    hide Run, Invariant, HasEarlier;
    if i < j {
      FirstIsEarlier(executions, i, j);
    } else if j < i {
      FirstIsEarlier(executions, j, i);
    }
  }

  lemma FirstIsEarlier(executions: seq<Execution>, i: nat, j: nat)
    requires i < j < |executions| && executions[i].key == executions[j].key
    ensures HasEarlier(executions, j)
  {
  }

  /** Response agreement, memory store: all successful answers ever given for a key, by
      any handlers of any endpoints, are the response of its one execution. */
  lemma AnswersAgree(steps: seq<Step>, i: nat, j: nat, r: Response, r': Response)
    requires var s := Run(Memory, INITIAL, steps);
             i < |s.handlers| && j < |s.handlers| && s.handlers[i].key == s.handlers[j].key != ""
             && s.handlers[i].phase == Finished(Replied(r)) && s.handlers[j].phase == Finished(Replied(r'))
    ensures r == r'
    ensures WasExecuted(Run(Memory, INITIAL, steps).executions, Run(Memory, INITIAL, steps).handlers[i].key, r)
  {
    RunKeepsInvariant(Memory, steps);
    var s := Run(Memory, INITIAL, steps);
    assert AnswerGenuine(s.executions, s.handlers[i]) && AnswerGenuine(s.executions, s.handlers[j]);
    var m :| 0 <= m < |s.executions| && s.executions[m].key == s.handlers[i].key && s.executions[m].response == r;
    var n :| 0 <= n < |s.executions| && s.executions[n].key == s.handlers[j].key && s.executions[n].response == r';
    AtMostOnce(steps, m, n);
  }

  /** With either store, a stored response never changes and never goes away. */
  lemma {:induction false} ResultsWriteOnce(backend: Backend, steps: seq<Step>, more: seq<Step>, key: string)
    requires key in Run(backend, INITIAL, steps).results
    ensures key in Run(backend, INITIAL, steps + more).results
    ensures Run(backend, INITIAL, steps + more).results[key] == Run(backend, INITIAL, steps).results[key]
  {
    if more == [] {
      assert steps + more == steps;
    } else {
      var front, last := more[..|more| - 1], more[|more| - 1];
      ResultsWriteOnce(backend, steps, front, key);
      RunKeepsInvariant(backend, steps + front);
      assert (steps + more)[..|steps + more| - 1] == steps + front && (steps + more)[|steps + more| - 1] == last;
      StepKeepsResult(backend, Run(backend, INITIAL, steps + front), last, key);
      hide *;
    }
  }

  lemma StepKeepsResult(backend: Backend, s: State, step: Step, key: string)
    requires key in s.results && (backend.Memory? ==> NotYetStored(s))
    ensures var results := Apply(backend, s, step).results; key in results && results[key] == s.results[key]
  {
  }

  /** With either store, an execution repeats an earlier one of its key if and only if it
      was started although the key's result was already stored. That cannot happen with
      the memory store, and can with Postgres, where the lock is inserted after the
      result was looked up. */
  lemma RepeatsAreStale(backend: Backend, steps: seq<Step>, j: nat)
    requires j < |Run(backend, INITIAL, steps).executions|
    requires Run(backend, INITIAL, steps).executions[j].key != ""
    ensures var executions := Run(backend, INITIAL, steps).executions;
            (exists i :: 0 <= i < j && executions[i].key == executions[j].key) <==> executions[j].stale
    ensures backend.Memory? ==> !Run(backend, INITIAL, steps).executions[j].stale
  {
    RunKeepsInvariant(backend, steps);
    var executions := Run(backend, INITIAL, steps).executions;
    assert HasEarlier(executions, j) <==> exists i :: 0 <= i < j && executions[i].key == executions[j].key;
  }

  /** A Postgres run executes no key twice if and only if no execution was started with
      the result of its key already stored. */
  lemma PostgresAtMostOnceIff(steps: seq<Step>)
    ensures var executions := Run(Postgres, INITIAL, steps).executions;
            (forall i, j :: 0 <= i < j < |executions| && executions[i].key != "" ==>
               executions[i].key != executions[j].key)
            <==> forall j :: 0 <= j < |executions| && executions[j].key != "" ==> !executions[j].stale
  {
    RunKeepsInvariant(Postgres, steps);
    var executions := Run(Postgres, INITIAL, steps).executions;
    forall i, j | 0 <= i < j < |executions| && executions[i].key == executions[j].key
      ensures HasEarlier(executions, j)
    {
      FirstIsEarlier(executions, i, j);
    }
  }

  /** One more step of a Postgres run. */
  lemma Advance(steps: seq<Step>, s: State, step: Step) returns (longer: seq<Step>)
    requires Run(Postgres, INITIAL, steps) == s
    ensures Run(Postgres, INITIAL, longer) == Apply(Postgres, s, step)
  {
    longer := steps + [step];
    assert longer[..|steps|] == steps;
  }

  function TwoHandlers(key: string, p: Phase, q: Phase): seq<Handler> {
    [Handler(key, p), Handler(key, q)]
  }

  /** Two handlers that both look the key up before either inserts its lock. */
  lemma BothLookUpFirst(key: string) returns (steps: seq<Step>)
    requires key != ""
    ensures Run(Postgres, INITIAL, steps) == State(map[], {}, TwoHandlers(key, LookedUp, LookedUp), [])
  {
    steps := Advance([], INITIAL, Arrive(Transfer, key));
    steps := Advance(steps, State(map[], {}, [Handler(key, Arrived)], []), Arrive(Transfer, key));
    hide Run;
    steps := Advance(steps, State(map[], {}, TwoHandlers(key, Arrived, Arrived), []), LookUp(0));
    steps := Advance(steps, State(map[], {}, TwoHandlers(key, LookedUp, Arrived), []), LookUp(1));
  }

  /** The first of them inserts its lock, executes and saves. */
  lemma FirstFinishes(key: string, r: Response) returns (steps: seq<Step>)
    requires key != ""
    ensures Run(Postgres, INITIAL, steps)
         == State(map[key := r], {}, TwoHandlers(key, Finished(Replied(r)), LookedUp), [Execution(key, r, false)])
  {
    hide Run;
    steps := BothLookUpFirst(key);
    steps := Advance(steps, State(map[], {}, TwoHandlers(key, LookedUp, LookedUp), []), InsertLock(0));
    steps := Advance(steps, State(map[], {key}, TwoHandlers(key, Executing, LookedUp), []), Execute(0, r));
    steps := Advance(steps, State(map[], {key}, TwoHandlers(key, Executed(r), LookedUp), [Execution(key, r, false)]),
                     SaveResult(0, true));
  }

  /** At-most-once fails with Postgres: the second handler, whose look-up came too early,
      then inserts its lock, executes the same key and answers with another response. */
  lemma PostgresCanRepeat(key: string, r: Response, r': Response) returns (steps: seq<Step>)
    requires key != "" && r != r'
    ensures var s := Run(Postgres, INITIAL, steps);
            s.handlers == TwoHandlers(key, Finished(Replied(r)), Finished(Replied(r')))
            && s.executions == [Execution(key, r, false), Execution(key, r', true)]
            && s.results == map[key := r]
  {
    hide Run;
    steps := FirstFinishes(key, r);
    var done, e, e' := Finished(Replied(r)), Execution(key, r, false), Execution(key, r', true);
    steps := Advance(steps, State(map[key := r], {}, TwoHandlers(key, done, LookedUp), [e]), InsertLock(1));
    steps := Advance(steps, State(map[key := r], {key}, TwoHandlers(key, done, Executing), [e]), Execute(1, r'));
    steps := Advance(steps, State(map[key := r], {key}, TwoHandlers(key, done, Executed(r')), [e, e']),
                     SaveResult(1, true));
  }
}

/** When the idempotency protocol of Idempotency grants, refuses or answers a claim, told
    by the stored results, the locks and the handlers alone. */
module ClaimLaws {
  import opened Idempotency
  import opened Text

  lemma RunOneMore(backend: Backend, steps: seq<Step>, step: Step)
    ensures Run(backend, INITIAL, steps + [step]) == Apply(backend, Run(backend, INITIAL, steps), step)
  {
    assert (steps + [step])[..|steps|] == steps;
  }

  /** Memory store, over every run: an arrived handler executes after its claim exactly when
      its key is empty or has neither a result nor a lock, is told to wait exactly when the
      key is locked and has no result, and is answered exactly from a stored result. */
  lemma ClaimGrantedIff(steps: seq<Step>, h: nat)
    requires At(Run(Memory, INITIAL, steps), h, Arrived)
    ensures var s, t := Run(Memory, INITIAL, steps), Run(Memory, INITIAL, steps + [ClaimResult(h)]);
            var key := s.handlers[h].key;
            && |t.handlers| == |s.handlers| && t.results == s.results
            && (t.handlers[h].phase == Executing <==> key == "" || (key !in s.results && key !in s.locks))
            && (t.handlers[h].phase == Finished(InProgress) <==>
                  key != "" && key in s.locks && key !in s.results)
            && (forall r :: t.handlers[h].phase == Finished(Replied(r)) <==>
                  key != "" && key in s.results && s.results[key] == r)
            && t.locks == if key != "" && t.handlers[h].phase == Executing then s.locks + {key} else s.locks
  {
    hide Run;
    RunOneMore(Memory, steps, ClaimResult(h));
  }

  /** Postgres, first statement: an empty key executes at once, a stored result answers, any
      other key goes on to its lock. */
  lemma LookUpDecides(steps: seq<Step>, h: nat)
    requires At(Run(Postgres, INITIAL, steps), h, Arrived)
    ensures var s, t := Run(Postgres, INITIAL, steps), Run(Postgres, INITIAL, steps + [LookUp(h)]);
            var key := s.handlers[h].key;
            && |t.handlers| == |s.handlers| && t.results == s.results && t.locks == s.locks
            && (t.handlers[h].phase == Executing <==> key == "")
            && (t.handlers[h].phase == LookedUp <==> key != "" && key !in s.results)
            && (forall r :: t.handlers[h].phase == Finished(Replied(r)) <==>
                  key != "" && key in s.results && s.results[key] == r)
  {
    hide Run;
    RunOneMore(Postgres, steps, LookUp(h));
  }

  /** Postgres, second statement: the handler executes exactly when the key was not locked,
      and is told to wait exactly when it was. */
  lemma LockDecides(steps: seq<Step>, h: nat)
    requires At(Run(Postgres, INITIAL, steps), h, LookedUp)
    ensures var s, t := Run(Postgres, INITIAL, steps), Run(Postgres, INITIAL, steps + [InsertLock(h)]);
            var key := s.handlers[h].key;
            && |t.handlers| == |s.handlers| && t.results == s.results && t.locks == s.locks + {key}
            && (t.handlers[h].phase == Executing <==> key !in s.locks)
            && (t.handlers[h].phase == Finished(InProgress) <==> key in s.locks)
  {
    RunKeepsKeyed(Postgres, steps);
    hide Run;
    RunOneMore(Postgres, steps, InsertLock(h));
  }

  /** Only keys go on to their lock. */
  predicate LookUpsKeyed(s: State) {
    forall i :: 0 <= i < |s.handlers| && s.handlers[i].phase.LookedUp? ==> s.handlers[i].key != ""
  }

  lemma {:induction false} RunKeepsKeyed(backend: Backend, steps: seq<Step>)
    ensures LookUpsKeyed(Run(backend, INITIAL, steps))
  {
    if steps != [] {
      RunKeepsKeyed(backend, steps[..|steps| - 1]);
    }
  }

  // ---- whose locks they are ----------------------------------------------------------

  /** The handler does not vanish, and its save or release reaches the store. */
  predicate GoesWell(step: Step) {
    !step.Abandon? && (step.SaveResult? || step.ReleaseClaim? ==> step.stored)
  }

  predicate AllGoesWell(steps: seq<Step>) {
    forall i :: 0 <= i < |steps| ==> GoesWell(steps[i])
  }

  /** Some handler is between a granted claim of the key and its save or release. */
  predicate Held(s: State, key: string) {
    exists i :: 0 <= i < |s.handlers| && s.handlers[i].key == key && Holds(s.handlers[i])
  }

  ghost predicate LocksHeld(s: State) {
    forall k :: k in s.locks <==> k != "" && Held(s, k)
  }

  lemma HolderKeepsLock(backend: Backend, s: State, step: Step, i: nat)
    requires HoldersLock(s) && OneHolder(s) && GoesWell(step)
    requires i < |s.handlers| && s.handlers[i].key != "" && Holds(s.handlers[i])
    ensures s.handlers[i].key in Apply(backend, s, step).locks <==> Holds(Apply(backend, s, step).handlers[i])
  {
  }

  lemma StepKeepsHeld(backend: Backend, s: State, step: Step, key: string)
    requires HoldersLock(s) && OneHolder(s) && GoesWell(step) && key != "" && Held(s, key)
    ensures var t := Apply(backend, s, step); key in t.locks <==> Held(t, key)
  {
    var i :| 0 <= i < |s.handlers| && s.handlers[i].key == key && Holds(s.handlers[i]);
    hide Apply, Holds;
    NewHolder(backend, s, step);
    HolderKeepsLock(backend, s, step, i);
  }

  lemma StepKeepsFree(backend: Backend, s: State, step: Step, key: string)
    requires LookUpsKeyed(s) && key !in s.locks && !Held(s, key) && key != ""
    ensures var t := Apply(backend, s, step); key in t.locks <==> Held(t, key)
  {
    var t := Apply(backend, s, step);
    NewHolder(backend, s, step);
    var h := Touched(step);
    if h < |s.handlers| && s.handlers[h].key == key {
      assert key in t.locks <==> Holds(t.handlers[h]);
    }
  }

  lemma NoEmptyLock(backend: Backend, s: State, step: Step)
    requires LookUpsKeyed(s) && "" !in s.locks
    ensures "" !in Apply(backend, s, step).locks
  {
  }

  /** With either store: while every save and release reaches the store and no handler
      vanishes, the locked keys are exactly those that a handler holds. */
  lemma {:induction false} LocksAreHeld(backend: Backend, steps: seq<Step>)
    requires AllGoesWell(steps)
    ensures LocksHeld(Run(backend, INITIAL, steps))
  {
    if steps != [] {
      var before, step := steps[..|steps| - 1], steps[|steps| - 1];
      LocksAreHeld(backend, before);
      RunKeepsInvariant(backend, before);
      RunKeepsKeyed(backend, before);
      hide Apply, Held, HoldersLock, OneHolder, LookUpsKeyed, ResultsGenuine, AnswersGenuine, Spent,
           StaleIsRepeat, NotYetStored, NeverStale;
      var s := Run(backend, INITIAL, before);
      NoEmptyLock(backend, s, step);
      forall k | k != ""
        ensures k in Apply(backend, s, step).locks <==> Held(Apply(backend, s, step), k)
      {
        if Held(s, k) {
          StepKeepsHeld(backend, s, step, k);
        } else {
          StepKeepsFree(backend, s, step, k);
        }
      }
    }
  }

  /** Main result, memory store: while all goes well a request is told to wait exactly when
      another one of its key is under way. */
  lemma WaitsIffUnderWay(steps: seq<Step>, h: nat)
    requires AllGoesWell(steps) && At(Run(Memory, INITIAL, steps), h, Arrived)
    ensures var s, t := Run(Memory, INITIAL, steps), Run(Memory, INITIAL, steps + [ClaimResult(h)]);
            t.handlers[h].phase == Finished(InProgress)
            <==> s.handlers[h].key != "" && Held(s, s.handlers[h].key)
  {
    hide Apply, Held;
    ClaimGrantedIff(steps, h);
    LocksAreHeld(Memory, steps);
    var s := Run(Memory, INITIAL, steps);
    if Held(s, s.handlers[h].key) {
      HeldNotStored(steps, s.handlers[h].key);
    }
  }

  lemma HeldNotStored(steps: seq<Step>, key: string)
    requires Held(Run(Memory, INITIAL, steps), key)
    ensures key !in Run(Memory, INITIAL, steps).results
  {
    RunKeepsInvariant(Memory, steps);
  }

  /** Memory store, over every run: once a failed execution has released its key, the next
      request of the key is granted. */
  lemma RetryIsGranted(steps: seq<Step>, h: nat, endpoint: Endpoint, key: string)
    requires At(Run(Memory, INITIAL, steps), h, ExecutionFailed)
    requires EffectiveKey(endpoint, key) == Run(Memory, INITIAL, steps).handlers[h].key
    ensures var n := |Run(Memory, INITIAL, steps).handlers|;
            At(Run(Memory, INITIAL, steps + [ReleaseClaim(h, true)] + [Arrive(endpoint, key)] + [ClaimResult(n)]),
               n, Executing)
  {
    var s, n := Run(Memory, INITIAL, steps), |Run(Memory, INITIAL, steps).handlers|;
    assert Holds(s.handlers[h]);
    HeldNotStored(steps, s.handlers[h].key);
    hide Run, EffectiveKey;
    RunOneMore(Memory, steps, ReleaseClaim(h, true));
    RunOneMore(Memory, steps + [ReleaseClaim(h, true)], Arrive(endpoint, key));
    ClaimGrantedIff(steps + [ReleaseClaim(h, true)] + [Arrive(endpoint, key)], n);
  }

  // ---- what is answered is stored -------------------------------------------------------

  /** Every answer given for a key is backed by a stored result; with the memory store, by
      that very response. */
  predicate AnswersStored(backend: Backend, s: State) {
    forall i :: 0 <= i < |s.handlers| ==> AnswerStored(backend, s.results, s.handlers[i])
  }

  predicate AnswerStored(backend: Backend, results: map<string, Response>, handler: Handler) {
    handler.phase.Finished? && handler.phase.outcome.Replied? && handler.key != "" ==>
      handler.key in results && (backend.Memory? ==> results[handler.key] == handler.phase.outcome.response)
  }

  lemma StepKeepsStored(backend: Backend, s: State, step: Step)
    requires AnswersStored(backend, s) && (backend.Memory? ==> NotYetStored(s))
    ensures AnswersStored(backend, Apply(backend, s, step))
  {
    if step.SaveResult? && step.h < |s.handlers| {
      assert backend.Memory? && Holds(s.handlers[step.h]) ==> s.handlers[step.h].key !in s.results;
    }
  }

  /** Main result: over every run, a request answered with a response under a key leaves the
      key's result stored; with the memory store it is the response that was given. */
  lemma {:induction false} AnswersAreStored(backend: Backend, steps: seq<Step>)
    ensures AnswersStored(backend, Run(backend, INITIAL, steps))
  {
    if steps != [] {
      var before := steps[..|steps| - 1];
      AnswersAreStored(backend, before);
      RunKeepsInvariant(backend, before);
      hide Apply, AnswersStored, HoldersLock, OneHolder, ResultsGenuine, AnswersGenuine, Spent, StaleIsRepeat,
           NotYetStored, NeverStale;
      StepKeepsStored(backend, Run(backend, INITIAL, before), steps[|steps| - 1]);
    }
  }

  // ---- the keys of settlements ------------------------------------------------------------

  /** A settlement without a key goes by its operation; every other request by the key it sent. */
  lemma KeyInUse(endpoint: Endpoint, key: string)
    ensures !endpoint.Settlement? || !AllSpaces(key) ==> EffectiveKey(endpoint, key) == key
    ensures endpoint.Settlement? && AllSpaces(key) ==>
              exists left, right :: AllSpaces(left) && AllSpaces(right)
                && endpoint.operationId == left + EffectiveKey(endpoint, key) + right
    ensures endpoint.Settlement? && AllSpaces(key) ==> Trim(EffectiveKey(endpoint, key))
  {
    BlankIff(key);
    if endpoint.Settlement? {
      TrimSpaceEnds(endpoint.operationId);
      var left, right := TrimSpaceCuts(endpoint.operationId);
    }
  }

  /** Memory store: of all settlements of one operation that send no key, at most one is
      executed, and all that are answered get the same response. */
  lemma SettlesOnce(steps: seq<Step>, i: nat, j: nat, operation: string, blank: string, blank': string)
    requires AllSpaces(blank) && AllSpaces(blank') && !AllSpaces(operation)
    requires var executions := Run(Memory, INITIAL, steps).executions;
             i < |executions| && j < |executions|
             && executions[i].key == EffectiveKey(Settlement(operation), blank)
             && executions[j].key == EffectiveKey(Settlement(operation), blank')
    ensures i == j
  {
    BlankIff(blank);
    BlankIff(blank');
    BlankIff(operation);
    AtMostOnce(steps, i, j);
  }
}

/** One request handler of main.go that nothing interrupts, as steps of the idempotency
    protocol. */
module HandlerRuns {
  import opened Idempotency
  import opened Wrappers

  function OutcomeOf(answer: Claim, execution: Result<Response>): Outcome {
    match answer
    case Done(response) => Replied(response)
    case Refused => InProgress
    case Granted => if execution.Ok? then Replied(execution.value) else BadGateway
  }

  /** The steps the h-th handler takes; `execution` is what executing would give. */
  function HandlerSteps(h: nat, endpoint: Endpoint, key: string, answer: Claim, execution: Result<Response>)
    : seq<Step>
  {
    [Arrive(endpoint, key), ClaimResult(h)]
    + if !answer.Granted? then []
      else if execution.Ok? then [Execute(h, execution.value), SaveResult(h, true)]
      else [FailExecution(h), ReleaseClaim(h, true)]
  }

  lemma RunTwo(s: State, steps: seq<Step>, a: Step, b: Step)
    requires Run(Memory, INITIAL, steps) == s
    ensures Run(Memory, INITIAL, steps + [a, b]) == Apply(Memory, Apply(Memory, s, a), b)
  {
    hide Apply;
    var one := steps + [a];
    assert (steps + [a, b])[..|one|] == one && one[..|steps|] == steps;
  }

  function Joined(s: State, handler: Handler): State {
    s.(handlers := s.handlers + [handler])
  }

  /** Arriving and claiming. */
  lemma ArriveAndClaim(s: State, endpoint: Endpoint, key: string)
    ensures var k, h := EffectiveKey(endpoint, key), |s.handlers|;
            var answer := ClaimAnswer(s.results, s.locks, k);
            Apply(Memory, Apply(Memory, s, Arrive(endpoint, key)), ClaimResult(h))
            == match answer
               case Done(response) => Joined(s, Handler(k, Finished(Replied(response))))
               case Refused => Joined(s, Handler(k, Finished(InProgress)))
               case Granted => Joined(s, Handler(k, Executing)).(locks := LockedBy(s.locks, k))
  {
    hide EffectiveKey, ClaimAnswer, LockedBy;
    var t := Apply(Memory, s, Arrive(endpoint, key));
    assert t == Joined(s, Handler(EffectiveKey(endpoint, key), Arrived));
  }

  /** Executing and saving, or failing and releasing. */
  lemma ExecuteAndEnd(s: State, k: string, locks: set<string>, execution: Result<Response>)
    ensures var h, begun := |s.handlers|, Joined(s, Handler(k, Executing)).(locks := locks);
            if execution.Ok?
            then Apply(Memory, Apply(Memory, begun, Execute(h, execution.value)), SaveResult(h, true))
                 == Joined(s, Handler(k, Finished(Replied(execution.value))))
                    .(locks := Unlocked(locks, k), results := Saved(Memory, s.results, k, execution.value),
                      executions := s.executions + [Execution(k, execution.value, k in s.results)])
            else Apply(Memory, Apply(Memory, begun, FailExecution(h)), ReleaseClaim(h, true))
                 == Joined(s, Handler(k, Finished(BadGateway))).(locks := Unlocked(locks, k))
  {
    hide Unlocked, Saved;
    var h, begun := |s.handlers|, Joined(s, Handler(k, Executing)).(locks := locks);
    if execution.Ok? {
      var t := Apply(Memory, begun, Execute(h, execution.value));
      assert t.handlers == s.handlers + [Handler(k, Executed(execution.value))];
    } else {
      var t := Apply(Memory, begun, FailExecution(h));
      assert t.handlers == s.handlers + [Handler(k, ExecutionFailed)];
    }
  }

  /** What such a handler leaves: its outcome, a result saved only by a successful
      execution of a key that had none, and the locks as they were. */
  lemma OneHandler(steps: seq<Step>, endpoint: Endpoint, key: string, execution: Result<Response>)
    ensures var s, k := Run(Memory, INITIAL, steps), EffectiveKey(endpoint, key);
            var answer := ClaimAnswer(s.results, s.locks, k);
            var t := Run(Memory, INITIAL, steps + HandlerSteps(|s.handlers|, endpoint, key, answer, execution));
            && t.handlers == s.handlers + [Handler(k, Finished(OutcomeOf(answer, execution)))]
            && t.locks == s.locks
            && t.results == if answer.Granted? && execution.Ok? then Saved(Memory, s.results, k, execution.value)
                            else s.results
  {
    var s, k := Run(Memory, INITIAL, steps), EffectiveKey(endpoint, key);
    var answer, h := ClaimAnswer(s.results, s.locks, k), |s.handlers|;
    assert answer.Granted? ==> Unlocked(LockedBy(s.locks, k), k) == s.locks;
    hide Run, Apply, ClaimAnswer, EffectiveKey, LockedBy, Unlocked, Saved;
    RunTwo(s, steps, Arrive(endpoint, key), ClaimResult(h));
    ArriveAndClaim(s, endpoint, key);
    var claimed := steps + [Arrive(endpoint, key), ClaimResult(h)];
    var all := steps + HandlerSteps(h, endpoint, key, answer, execution);
    if answer.Granted? {
      ExecuteAndEnd(s, k, LockedBy(s.locks, k), execution);
      if execution.Ok? {
        RunTwo(Run(Memory, INITIAL, claimed), claimed, Execute(h, execution.value), SaveResult(h, true));
        assert all == claimed + [Execute(h, execution.value), SaveResult(h, true)];
      } else {
        RunTwo(Run(Memory, INITIAL, claimed), claimed, FailExecution(h), ReleaseClaim(h, true));
        assert all == claimed + [FailExecution(h), ReleaseClaim(h, true)];
      }
    } else {
      assert all == claimed;
    }
  }
}

/** The transfer and contract-call handlers of main.go over the memory store. */
module Handlers {
  import opened Attempts
  import opened HandlerRuns
  import opened MemoryStore
  import opened Signer
  import opened Wrappers
  import Idempotency
  import ReplayWindow
  import Treasury

  datatype Reply = Lockdown | NonceUsed | BadJson | Answered(outcome: Idempotency.Outcome)

  /** The store's results and locks are what this run of the protocol leaves. */
  ghost predicate Follows(claims: seq<Idempotency.Step>, results: map<string, Idempotency.Response>,
                          locks: set<string>)
  {
    var s := Idempotency.Run(Idempotency.Memory, Idempotency.INITIAL, claims);
    s.results == results && s.locks == locks
  }

  /** The last handler of the run, and how it ended. */
  ghost predicate EndsWith(claims: seq<Idempotency.Step>, key: string, outcome: Idempotency.Outcome) {
    var handlers := Idempotency.Run(Idempotency.Memory, Idempotency.INITIAL, claims).handlers;
    handlers != [] && handlers[|handlers| - 1] == Idempotency.Handler(key, Idempotency.Finished(outcome))
  }

  /** What follows a granted claim: the execution, and the save or the release. */
  method Finish(store: MemorySignerStore, cfg: Treasury.Setting, job: Job, policyError: Option<string>,
                c: Circumstances, attempts: seq<Attempt>, ghost history: seq<Treasury.Step>)
    returns (execution: Result<Idempotency.Response>, ghost longer: seq<Treasury.Step>)
    requires store.Valid() && FreshHashes(store.transactions, attempts)
    requires Tracks(cfg, history, store.transactions)
    modifies store`chainNonces, store`transactions, store`events, store`results, store`locks
    ensures store.Valid() && history <= longer && Tracks(cfg, longer, store.transactions)
    ensures store.locks == Idempotency.Unlocked(old(store.locks), job.key)
    ensures store.results == if execution.Ok?
                             then Idempotency.Saved(Idempotency.Memory, old(store.results), job.key, execution.value)
                             else old(store.results)
    ensures execution.Ok? <==> Succeeds(cfg, old(store.transactions), job, policyError, c, attempts)
    ensures execution.Ok? ==>
              IsAnswer(cfg, job, c, attempts, execution.value)
              && store.results == if job.key == "" then old(store.results)
                                  else old(store.results)[job.key := execution.value]
  {
    hide FreshHashes, Tracks, Succeeds, IsAnswer;
    execution, longer := Execute(store, cfg, job, policyError, c, attempts, history);
    if execution.Ok? {
      store.SaveResult(job.key, execution.value);
    } else {
      store.ReleaseClaim(job.key);
    }
  }

  /** What the protocol's run makes of a handler that claimed, and executed if it was granted. */
  lemma OneMoreHandler(claims: seq<Idempotency.Step>, results: map<string, Idempotency.Response>, locks: set<string>,
                       endpoint: Idempotency.Endpoint, key: string, execution: Result<Idempotency.Response>)
    requires Follows(claims, results, locks) && !endpoint.Settlement?
    ensures var claim := Idempotency.ClaimAnswer(results, locks, key);
            var h := |Idempotency.Run(Idempotency.Memory, Idempotency.INITIAL, claims).handlers|;
            var claims' := claims + HandlerSteps(h, endpoint, key, claim, execution);
            var saved := Idempotency.Saved(Idempotency.Memory, results, key,
                                           if execution.Ok? then execution.value else Idempotency.Response("", "", ""));
            && EndsWith(claims', key, OutcomeOf(claim, execution))
            && Follows(claims', if claim.Granted? && execution.Ok? then saved else results, locks)
  {
    OneHandler(claims, endpoint, key, execution);
  }

  /** The claim, the execution, the save or release. */
  method ClaimAndAnswer(store: MemorySignerStore, endpoint: Idempotency.Endpoint, job: Job, cfg: Treasury.Setting,
                        policyError: Option<string>, c: Circumstances, attempts: seq<Attempt>,
                        ghost claims: seq<Idempotency.Step>, ghost history: seq<Treasury.Step>)
    returns (outcome: Idempotency.Outcome, ghost claims': seq<Idempotency.Step>, ghost history': seq<Treasury.Step>)
    requires !endpoint.Settlement?
    requires store.Valid() && FreshHashes(store.transactions, attempts)
    requires Follows(claims, store.results, store.locks) && Tracks(cfg, history, store.transactions)
    modifies store`chainNonces, store`transactions, store`events, store`results, store`locks
    ensures store.Valid() && claims <= claims' && history <= history' && store.locks == old(store.locks)
    ensures Follows(claims', store.results, store.locks) && Tracks(cfg, history', store.transactions)
    ensures EndsWith(claims', job.key, outcome)
    ensures job.key != "" && job.key in old(store.results) ==>
              outcome == Idempotency.Replied(old(store.results)[job.key])
              && store.transactions == old(store.transactions) && store.results == old(store.results)
    ensures job.key != "" && job.key !in old(store.results) && job.key in old(store.locks) ==>
              outcome.InProgress?
              && store.transactions == old(store.transactions) && store.results == old(store.results)
    ensures job.key == "" || (job.key !in old(store.results) && job.key !in old(store.locks)) ==>
              if Succeeds(cfg, old(store.transactions), job, policyError, c, attempts)
              then outcome.Replied? && IsAnswer(cfg, job, c, attempts, outcome.response)
                   && store.results == if job.key == "" then old(store.results)
                                       else old(store.results)[job.key := outcome.response]
              else outcome.BadGateway? && store.results == old(store.results)
  {
    history' := history;
    ghost var h := |Idempotency.Run(Idempotency.Memory, Idempotency.INITIAL, claims).handlers|;
    hide FreshHashes, Tracks, Follows, EndsWith, HandlerSteps, Succeeds, IsAnswer, Idempotency.Saved;
    var claim := store.ClaimResult(job.key);
    ghost var execution: Result<Idempotency.Response> := Err("");
    match claim {
      case Done(previous) =>
        outcome := Idempotency.Replied(previous);
      case Refused =>
        outcome := Idempotency.InProgress;
      case Granted =>
        var r;
        r, history' := Finish(store, cfg, job, policyError, c, attempts, history);
        execution := r;
        outcome := if r.Ok? then Idempotency.Replied(r.value) else Idempotency.BadGateway;
    }
    OneMoreHandler(claims, old(store.results), old(store.locks), endpoint, job.key, execution);
    claims' := claims + HandlerSteps(h, endpoint, job.key, claim, execution);
    assert store.locks == old(store.locks);
  }

  /** A request of /hd/transfer or /hd/contract-call: the guard, the nonce, the body, the
      claim, the execution, the save or release. A body that is not JSON has used its nonce. */
  method Handle(store: MemorySignerStore, guardLocked: bool, nonce: string, now: int, ttl: nat,
                endpoint: Idempotency.Endpoint, job: Job, cfg: Treasury.Setting,
                body: bool, policyError: Option<string>, c: Circumstances, attempts: seq<Attempt>,
                ghost claims: seq<Idempotency.Step>, ghost history: seq<Treasury.Step>)
    returns (reply: Reply, ghost claims': seq<Idempotency.Step>, ghost history': seq<Treasury.Step>)
    requires !endpoint.Settlement?
    requires store.Valid() && FreshHashes(store.transactions, attempts)
    requires Follows(claims, store.results, store.locks) && Tracks(cfg, history, store.transactions)
    modifies store
    ensures store.Valid() && claims <= claims' && history <= history'
    ensures Follows(claims', store.results, store.locks) && Tracks(cfg, history', store.transactions)
    ensures store.locks == old(store.locks)
    ensures reply.Lockdown? <==> guardLocked
    ensures guardLocked ==> store.nonces == old(store.nonces)
    ensures !guardLocked ==> store.nonces == ReplayWindow.AfterAccept(old(store.nonces), nonce, now, ttl)
    ensures reply.NonceUsed? <==> !guardLocked && !ReplayWindow.NonceAccepted(old(store.nonces), nonce, now)
    ensures reply.BadJson? <==> !guardLocked && ReplayWindow.NonceAccepted(old(store.nonces), nonce, now) && !body
    ensures !reply.Answered? ==> store.results == old(store.results) && store.transactions == old(store.transactions)
    ensures reply.Answered? ==> EndsWith(claims', job.key, reply.outcome)
    ensures reply.Answered? && job.key != "" && job.key in old(store.results) ==>
              reply.outcome == Idempotency.Replied(old(store.results)[job.key])
              && store.transactions == old(store.transactions) && store.results == old(store.results)
    ensures reply.Answered? && (job.key == "" || (job.key !in old(store.results) && job.key !in old(store.locks))) ==>
              if Succeeds(cfg, old(store.transactions), job, policyError, c, attempts)
              then reply.outcome.Replied? && IsAnswer(cfg, job, c, attempts, reply.outcome.response)
                   && store.results == if job.key == "" then old(store.results)
                                       else old(store.results)[job.key := reply.outcome.response]
              else reply.outcome.BadGateway? && store.results == old(store.results)
    ensures reply.Answered? && job.key != "" && job.key !in old(store.results) && job.key in old(store.locks) ==>
              reply.outcome.InProgress? && store.transactions == old(store.transactions)
              && store.results == old(store.results)
    ensures reply.Answered? && reply.outcome.Replied? ==>
              job.key == "" || (job.key in store.results && store.results[job.key] == reply.outcome.response)
  {
    claims', history' := claims, history;
    if guardLocked {
      return Lockdown, claims, history;
    }
    var accepted := store.AcceptNonce(nonce, now, ttl);
    if !accepted {
      return NonceUsed, claims, history;
    }
    if !body {
      return BadJson, claims, history;
    }
    hide *;
    var outcome;
    outcome, claims', history' := ClaimAndAnswer(store, endpoint, job, cfg, policyError, c, attempts, claims, history);
    reply := Answered(outcome);
  }
}

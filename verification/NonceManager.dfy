/** NonceManager.ValidateNonce over the in-memory nonce store of internal/security/nonce.go:
    each call looks the nonce up and stores it in two separate steps, and looking up an
    expired nonce leaves a deletion to run later. */
module NonceValidation {

  datatype Phase = Started | FoundAbsent | Succeeded | Failed

  datatype Call = Call(nonce: string, phase: Phase)

  datatype State = State(store: map<string, int>, deletions: multiset<string>, calls: seq<Call>)

  datatype Step =
    | Begin(nonce: string)
    | Exists(c: nat, now: int)
    | Store(c: nat, now: int)
    | RunDelete(nonce: string)
    | Cleanup(now: int)

  predicate At(s: State, c: nat, phase: Phase) {
    c < |s.calls| && s.calls[c].phase == phase
  }

  function SetPhase(s: State, c: nat, phase: Phase): State
    requires c < |s.calls|
  {
    s.(calls := s.calls[c := s.calls[c].(phase := phase)])
  }

  /** Exists: an expired entry reads as absent and is handed to a deletion. */
  function LookUp(s: State, c: nat, now: int): State
    requires c < |s.calls|
  {
    var nonce := s.calls[c].nonce;
    if nonce !in s.store then SetPhase(s, c, FoundAbsent)
    else if now > s.store[nonce]
    then SetPhase(s.(deletions := s.deletions + multiset{nonce}), c, FoundAbsent)
    else SetPhase(s, c, Failed)
  }

  function Apply(s: State, step: Step, ttl: nat): State {
    match step
    case Begin(nonce) =>
      s.(calls := s.calls + [Call(nonce, if nonce == "" then Failed else Started)])
    case Exists(c, now) => if At(s, c, Started) then LookUp(s, c, now) else s
    case Store(c, now) =>
      if !At(s, c, FoundAbsent) then s
      else if s.calls[c].nonce in s.store then SetPhase(s, c, Failed)
      else SetPhase(s.(store := s.store[s.calls[c].nonce := now + ttl]), c, Succeeded)
    case RunDelete(nonce) =>
      if nonce in s.deletions
      then s.(store := s.store - {nonce}, deletions := s.deletions - multiset{nonce}) else s
    case Cleanup(now) => s.(store := map n | n in s.store && !(now > s.store[n]) :: s.store[n])
  }

  /** The entry of the nonce, if there is one, has not expired when the step reads it. */
  predicate Unexpired(s: State, step: Step, nonce: string) {
    nonce in s.store && (step.Exists? || step.Cleanup?) ==> step.now <= s.store[nonce]
  }

  function Run(s: State, steps: seq<Step>, ttl: nat): State {
    if steps == [] then s else Apply(Run(s, steps[..|steps| - 1], ttl), steps[|steps| - 1], ttl)
  }

  /** Every step falls within one time to live of the nonce's first Store. */
  predicate WithinLife(s: State, steps: seq<Step>, nonce: string, ttl: nat) {
    steps == []
    || (WithinLife(s, steps[..|steps| - 1], nonce, ttl)
        && Unexpired(Run(s, steps[..|steps| - 1], ttl), steps[|steps| - 1], nonce))
  }

  /** The nonce has never been seen. */
  predicate Unseen(s: State, nonce: string) {
    nonce !in s.store && nonce !in s.deletions && forall c :: 0 <= c < |s.calls| ==> s.calls[c].nonce != nonce
  }

  /** The stored entry belongs to a call that succeeded. */
  predicate Owned(s: State, nonce: string) {
    nonce in s.store <==> exists c :: 0 <= c < |s.calls| && s.calls[c] == Call(nonce, Succeeded)
  }

  /** It is the only ground for refusing another call. */
  predicate RefusedWhenStored(s: State, nonce: string) {
    forall c :: 0 <= c < |s.calls| && s.calls[c] == Call(nonce, Failed) ==> nonce in s.store
  }

  predicate Sole(s: State, nonce: string) {
    forall c, d :: (0 <= c < d < |s.calls| && s.calls[c] == Call(nonce, Succeeded)) ==>
                     s.calls[d] != Call(nonce, Succeeded)
  }

  predicate OneOwner(s: State, nonce: string) {
    nonce !in s.deletions && Owned(s, nonce) && RefusedWhenStored(s, nonce) && Sole(s, nonce)
  }

  /** While it lives, the entry is never removed; it appears when a call succeeds. */
  lemma EntryStays(s: State, step: Step, nonce: string, ttl: nat)
    requires nonce !in s.deletions && Unexpired(s, step, nonce)
    ensures var t := Apply(s, step, ttl);
            nonce !in t.deletions
            && (nonce in t.store <==>
                  nonce in s.store
                  || (step.Store? && At(s, step.c, FoundAbsent) && s.calls[step.c].nonce == nonce))
  {
  }

  /** No step drops a call, and a new one starts or is refused for having no nonce. */
  lemma CallsGrow(s: State, step: Step, nonce: string, ttl: nat)
    requires nonce != ""
    ensures var t := Apply(s, step, ttl);
            |s.calls| <= |t.calls|
            && forall c :: |s.calls| <= c < |t.calls| && t.calls[c].nonce == nonce ==> t.calls[c].phase == Started
  {
  }

  lemma OneCallStep(s: State, step: Step, nonce: string, ttl: nat, c: nat)
    requires nonce != "" && c < |s.calls| <= |Apply(s, step, ttl).calls|
    ensures CallStep(s, step, nonce, c, Apply(s, step, ttl).calls[c])
  {
  }

  /** What a step does to the calls of the nonce. */
  lemma CallsStep(s: State, step: Step, nonce: string, ttl: nat)
    requires nonce != ""
    ensures var t := Apply(s, step, ttl);
            |s.calls| <= |t.calls|
            && (forall c :: |s.calls| <= c < |t.calls| && t.calls[c].nonce == nonce ==>
                  t.calls[c].phase == Started)
            && forall c :: 0 <= c < |s.calls| ==> CallStep(s, step, nonce, c, t.calls[c])
  {
    hide Apply, CallStep;
    CallsGrow(s, step, nonce, ttl);
    forall c | 0 <= c < |s.calls|
      ensures CallStep(s, step, nonce, c, Apply(s, step, ttl).calls[c])
    {
      OneCallStep(s, step, nonce, ttl, c);
    }
  }

  predicate CallStep(s: State, step: Step, nonce: string, c: nat, after: Call)
    requires c < |s.calls|
  {
    && after.nonce == s.calls[c].nonce
    && (s.calls[c].phase in {Succeeded, Failed} ==> after == s.calls[c])
    && (after == Call(nonce, Succeeded) != s.calls[c] ==>
          step.Store? && step.c == c && At(s, c, FoundAbsent) && nonce !in s.store)
    && (after == Call(nonce, Failed) != s.calls[c] ==> nonce in s.store)
    && (step.Store? && step.c == c && At(s, c, FoundAbsent) && s.calls[c].nonce == nonce ==>
          after == Call(nonce, if nonce in s.store then Failed else Succeeded))
  }

  lemma StepKeepsOneOwner(s: State, step: Step, nonce: string, ttl: nat)
    requires OneOwner(s, nonce) && Unexpired(s, step, nonce) && nonce != ""
    ensures OneOwner(Apply(s, step, ttl), nonce)
  {
    EntryStays(s, step, nonce, ttl);
    CallsStep(s, step, nonce, ttl);
    hide Apply;
    var t := Apply(s, step, ttl);
    if c :| 0 <= c < |s.calls| && s.calls[c] == Call(nonce, Succeeded) {
      assert t.calls[c] == Call(nonce, Succeeded);
    } else if step.Store? && At(s, step.c, FoundAbsent) && s.calls[step.c].nonce == nonce {
      assert t.calls[step.c] == Call(nonce, Succeeded);
    }
  }

  lemma {:induction false} RunKeepsOneOwner(s: State, steps: seq<Step>, nonce: string, ttl: nat)
    requires Unseen(s, nonce) && nonce != "" && WithinLife(s, steps, nonce, ttl)
    ensures OneOwner(Run(s, steps, ttl), nonce)
  {
    if steps != [] {
      var before := steps[..|steps| - 1];
      RunKeepsOneOwner(s, before, nonce, ttl);
      StepKeepsOneOwner(Run(s, before, ttl), steps[|steps| - 1], nonce, ttl);
    }
  }

  /** No two calls succeed, at any moment of any interleaving. */
  lemma AtMostOneSucceeds(s: State, steps: seq<Step>, nonce: string, ttl: nat, c: nat, d: nat)
    requires Unseen(s, nonce) && nonce != "" && WithinLife(s, steps, nonce, ttl)
    requires var t := Run(s, steps, ttl);
             c < |t.calls| && d < |t.calls|
             && t.calls[c] == Call(nonce, Succeeded) && t.calls[d] == Call(nonce, Succeeded)
    ensures c == d
  {
    RunKeepsOneOwner(s, steps, nonce, ttl);
  }

  /** Once all calls of the nonce have finished, and there is one, exactly one succeeded. */
  lemma ExactlyOneSucceeds(s: State, steps: seq<Step>, nonce: string, ttl: nat)
    requires Unseen(s, nonce) && nonce != "" && WithinLife(s, steps, nonce, ttl)
    requires var t := Run(s, steps, ttl);
             (exists c :: 0 <= c < |t.calls| && t.calls[c].nonce == nonce)
             && forall c :: 0 <= c < |t.calls| && t.calls[c].nonce == nonce ==>
                  t.calls[c].phase in {Succeeded, Failed}
    ensures var t := Run(s, steps, ttl);
            exists c :: (0 <= c < |t.calls| && t.calls[c] == Call(nonce, Succeeded))
              && forall d :: 0 <= d < |t.calls| && t.calls[d] == Call(nonce, Succeeded) ==> d == c
  {
    RunKeepsOneOwner(s, steps, nonce, ttl);
    var t := Run(s, steps, ttl);
    var c :| 0 <= c < |t.calls| && t.calls[c].nonce == nonce;
    assert t.calls[c] == Call(nonce, Failed) || t.calls[c] == Call(nonce, Succeeded);
    assert nonce in t.store;
    var w :| 0 <= w < |t.calls| && t.calls[w] == Call(nonce, Succeeded);
    forall d | 0 <= d < |t.calls| && t.calls[d] == Call(nonce, Succeeded)
      ensures d == w
    {
    }
  }
}

/** The objects of internal/security/nonce.go. */
module NonceManagerClass {
  import opened Wrappers
  import opened NonceValidation

  class InMemoryNonceStore {
    var store: map<string, int>
    /** Deletions started by Exists that have not run yet. */
    var deletions: multiset<string>

    constructor ()
      ensures store == map[] && deletions == multiset{}
    {
      store, deletions := map[], multiset{};
    }

    method Store(nonce: string, now: int, ttl: nat) returns (r: Result<()>)
      modifies this`store
      ensures r.Ok? <==> nonce !in old(store)
      ensures store == if r.Ok? then old(store)[nonce := now + ttl] else old(store)
    {
      if nonce in store {
        return Err("nonce already exists");
      }
      store := store[nonce := now + ttl];
      return Ok(());
    }

    method Exists(nonce: string, now: int) returns (used: bool)
      modifies this`deletions
      ensures used <==> nonce in store && now <= store[nonce]
      ensures deletions == old(deletions) + if nonce in store && !used then multiset{nonce} else multiset{}
    {
      if nonce !in store {
        return false;
      }
      if now > store[nonce] {
        deletions := deletions + multiset{nonce};
        return false;
      }
      return true;
    }

    method Delete(nonce: string)
      modifies this`store
      ensures store == old(store) - {nonce}
    {
      store := store - {nonce};
    }

    /** A deletion started earlier gets its turn. */
    method RunDelete(nonce: string)
      requires nonce in deletions
      modifies this
      ensures State(store, deletions, []) == Apply(old(State(store, deletions, [])), Step.RunDelete(nonce), 0)
    {
      deletions := deletions - multiset{nonce};
      Delete(nonce);
    }

    method Cleanup(now: int)
      modifies this`store
      ensures State(store, deletions, []) == Apply(old(State(store, deletions, [])), Step.Cleanup(now), 0)
      ensures forall n :: n in store <==> n in old(store) && now <= old(store)[n]
      ensures forall n :: n in store ==> store[n] == old(store)[n]
    {
      ghost var before := store;
      var unseen := store.Keys;
      while unseen != {}
        invariant unseen <= before.Keys
        invariant store.Keys <= before.Keys
        invariant forall n :: n in before ==>
                    (n in store <==> n in unseen || !(now > before[n])) && (n in store ==> store[n] == before[n])
      {
        var nonce :| nonce in unseen;
        unseen := unseen - {nonce};
        if now > store[nonce] {
          store := store - {nonce};
        }
      }
    }
  }

  class NonceManager {
    const store: InMemoryNonceStore
    const ttl: nat

    constructor (store: InMemoryNonceStore, ttl: nat)
      ensures this.store == store && this.ttl == ttl
    {
      this.store, this.ttl := store, ttl;
    }

    /** The look-up and the store, for a nonce that is not empty. */
    method Consume(nonce: string, now: int, later: int) returns (r: Result<()>)
      modifies store
      ensures r.Ok? <==> nonce !in old(store.store)
      ensures store.store == if r.Ok? then old(store.store)[nonce := later + ttl] else old(store.store)
      ensures store.deletions
           == if nonce in old(store.store) && now > old(store.store[nonce])
              then old(store.deletions) + multiset{nonce} else old(store.deletions)
    {
      var used := store.Exists(nonce, now);
      if used {
        return Err("nonce already used");
      }
      r := store.Store(nonce, later, ttl);
    }

    /** One call that nothing interrupts. An expired entry still refuses the nonce until it
        is deleted. */
    method ValidateNonce(nonce: string, now: int, later: int) returns (r: Result<()>)
      modifies store
      ensures r.Ok? <==> nonce != "" && nonce !in old(store.store)
      ensures store.store == if r.Ok? then old(store.store)[nonce := later + ttl] else old(store.store)
      ensures State(store.store, store.deletions, [Call(nonce, if r.Ok? then Succeeded else Failed)])
              == Run(old(State(store.store, store.deletions, [])),
                     [Begin(nonce), Step.Exists(0, now), Step.Store(0, later)], ttl)
    {
      hide *;
      OneCall(store.store, store.deletions, nonce, now, later, ttl);
      if nonce == "" {
        return Err("nonce missing");
      }
      r := Consume(nonce, now, later);
    }
  }

  /** What a call that nothing interrupts leaves. */
  lemma OneCall(entries: map<string, int>, deletions: multiset<string>, nonce: string, now: int, later: int,
                ttl: nat)
    ensures var unused := nonce != "" && nonce !in entries;
            Run(State(entries, deletions, []), [Begin(nonce), Step.Exists(0, now), Step.Store(0, later)], ttl)
            == State(if unused then entries[nonce := later + ttl] else entries,
                     if nonce != "" && nonce in entries && now > entries[nonce]
                     then deletions + multiset{nonce} else deletions,
                     [Call(nonce, if unused then Succeeded else Failed)])
  {
    hide Run, Apply;
    ThreeSteps(State(entries, deletions, []), Begin(nonce), Step.Exists(0, now), Step.Store(0, later), ttl);
    BeginAlone(entries, deletions, nonce, ttl);
    if nonce == "" {
      FailedAlone(entries, deletions, nonce, Step.Exists(0, now), ttl);
      FailedAlone(entries, deletions, nonce, Step.Store(0, later), ttl);
    } else {
      LookUpAlone(entries, deletions, nonce, now, ttl);
      if nonce in entries && now <= entries[nonce] {
        FailedAlone(entries, deletions, nonce, Step.Store(0, later), ttl);
      } else {
        StoreAlone(entries, if nonce in entries then deletions + multiset{nonce} else deletions, nonce, later, ttl);
      }
    }
  }

  lemma BeginAlone(entries: map<string, int>, deletions: multiset<string>, nonce: string, ttl: nat)
    ensures Apply(State(entries, deletions, []), Begin(nonce), ttl)
         == State(entries, deletions, [Call(nonce, if nonce == "" then Failed else Started)])
  {
  }

  lemma FailedAlone(entries: map<string, int>, deletions: multiset<string>, nonce: string, step: Step, ttl: nat)
    requires step.Exists? || step.Store?
    ensures Apply(State(entries, deletions, [Call(nonce, Failed)]), step, ttl)
         == State(entries, deletions, [Call(nonce, Failed)])
  {
  }

  lemma LookUpAlone(entries: map<string, int>, deletions: multiset<string>, nonce: string, now: int, ttl: nat)
    ensures Apply(State(entries, deletions, [Call(nonce, Started)]), Step.Exists(0, now), ttl)
         == if nonce in entries && now <= entries[nonce]
            then State(entries, deletions, [Call(nonce, Failed)])
            else State(entries, if nonce in entries then deletions + multiset{nonce} else deletions,
                       [Call(nonce, FoundAbsent)])
  {
    assert [Call(nonce, Started)][0 := Call(nonce, Failed)] == [Call(nonce, Failed)];
    assert [Call(nonce, Started)][0 := Call(nonce, FoundAbsent)] == [Call(nonce, FoundAbsent)];
  }

  lemma StoreAlone(entries: map<string, int>, deletions: multiset<string>, nonce: string, later: int, ttl: nat)
    ensures Apply(State(entries, deletions, [Call(nonce, FoundAbsent)]), Step.Store(0, later), ttl)
         == if nonce in entries then State(entries, deletions, [Call(nonce, Failed)])
            else State(entries[nonce := later + ttl], deletions, [Call(nonce, Succeeded)])
  {
    assert [Call(nonce, FoundAbsent)][0 := Call(nonce, Failed)] == [Call(nonce, Failed)];
    assert [Call(nonce, FoundAbsent)][0 := Call(nonce, Succeeded)] == [Call(nonce, Succeeded)];
  }

  lemma ThreeSteps(s: State, a: Step, b: Step, c: Step, ttl: nat)
    ensures Run(s, [a, b, c], ttl) == Apply(Apply(Apply(s, a, ttl), b, ttl), c, ttl)
  {
    hide Apply;
    assert [a, b, c][..2] == [a, b] && [a, b][..1] == [a] && [a][..0] == [];
    assert Run(s, [], ttl) == s && Run(s, [a], ttl) == Apply(s, a, ttl);
  }
}

/** The guard object of custody_guard.go over the persistent store. RPC answers are
    parameters; a nil transaction of a block counts as one that sets no code. */
module CustodyGuardClass {
  import opened Calldata
  import opened CustodySpec
  import opened CustodyThreats
  import opened MemoryStore
  import opened PostgresStore
  import opened Wrappers
  import CustodyRuns

  /** What an RPC tells of a delegate's bytecode when the guard starts. */
  datatype Code = Unreadable | Empty | Code(hash: string)

  /** The transactions of the first endpoint that answers; none if no endpoint does. */
  function Answer(responses: seq<Option<seq<Transaction>>>): seq<Transaction> {
    if responses == [] then []
    else if responses[0].Some? then responses[0].value
    else Answer(responses[1..])
  }

  /** Endpoints before the first that answers play no part, nor do those after it. */
  lemma {:induction false} AnswerIs(responses: seq<Option<seq<Transaction>>>, k: nat)
    requires forall l :: 0 <= l < k && l < |responses| ==> responses[l].None?
    ensures k < |responses| && responses[k].Some? ==> Answer(responses) == responses[k].value
    ensures k >= |responses| ==> Answer(responses) == []
  {
    if k > 0 && responses != [] {
      AnswerIs(responses[1..], k - 1);
    }
  }

  /** The guard's terms for one authorization, in those of CustodyThreats. */
  lemma ReadsAs(rules: Rules, source: string, tx: Transaction, auth: Authorization)
    ensures var risk := RiskOf(rules, tx, auth);
            && (risk.Some? <==> Threat(rules, tx, auth))
            && (risk.Some? ==> Tells(rules, tx, auth, ReasonOf(source, tx, auth, risk.value)))
            && (risk.Some? ==> auth.authority.Some?)
            && (risk == Some(UnknownSelector) <==> risk.Some? && SelectorDisallowed(rules, tx))
            && (risk == Some(UnknownDelegate) <==>
                  risk.Some? && !SelectorDisallowed(rules, tx) && DelegateUntrusted(rules, auth))
  {
    RiskIff(rules, tx, auth);
    if RiskOf(rules, tx, auth).Some? {
      ReasonTells(rules, source, tx, auth);
    }
    hide SelectorDisallowed, Tells, ReasonOf, CalldataSelector, Observed;
  }

  /** The first risk of one transaction is at j, or there is none and j is past the end. */
  predicate FirstInside(rules: Rules, tx: Transaction, j: nat) {
    j <= |tx.authorizations|
    && (forall l :: 0 <= l < j ==> RiskOf(rules, tx, tx.authorizations[l]).None?)
    && (j < |tx.authorizations| ==> RiskOf(rules, tx, tx.authorizations[j]).Some?)
  }

  function ReasonAt(rules: Rules, source: string, tx: Transaction, j: nat): string
    requires FirstInside(rules, tx, j) && j < |tx.authorizations|
  {
    ReasonOf(source, tx, tx.authorizations[j], RiskOf(rules, tx, tx.authorizations[j]).value)
  }

  /** The first risk from j on, or the end. */
  function FirstFrom(rules: Rules, tx: Transaction, j: nat): (k: nat)
    requires j <= |tx.authorizations|
    ensures j <= k <= |tx.authorizations|
    ensures forall l :: j <= l < k ==> RiskOf(rules, tx, tx.authorizations[l]).None?
    ensures k < |tx.authorizations| ==> RiskOf(rules, tx, tx.authorizations[k]).Some?
    decreases |tx.authorizations| - j
  {
    if j == |tx.authorizations| || RiskOf(rules, tx, tx.authorizations[j]).Some? then j
    else FirstFrom(rules, tx, j + 1)
  }

  /** The event recorded beside the lock's own: changed code has none. */
  function AlarmOf(tx: Transaction, auth: Authorization, risk: Risk): seq<CustodyEvent> {
    var wallet := if auth.authority.Some? then auth.authority.value else "";
    match risk
    case UnknownSelector =>
      [CustodyEvent("unknown_selector", "EIP-7702 selector nao permitido", tx.hash, wallet)]
    case UnknownDelegate =>
      [CustodyEvent("unknown_delegate", "EIP-7702 delegate desconhecido", tx.hash, wallet)]
    case _ => []
  }

  function LockEvent(reason: string): CustodyEvent {
    CustodyEvent("signer_locked", reason, "", "")
  }

  /** What inspecting a transaction records: its first risk, once. */
  function EventsOf(rules: Rules, source: string, tx: Transaction): seq<CustodyEvent> {
    var j := FirstFrom(rules, tx, 0);
    if j == |tx.authorizations| then []
    else
      var auth := tx.authorizations[j];
      var risk := RiskOf(rules, tx, auth).value;
      AlarmOf(tx, auth, risk) + [LockEvent(ReasonOf(source, tx, auth, risk))]
  }

  function BlockEvents(rules: Rules, source: string, txs: seq<Transaction>): seq<CustodyEvent> {
    if txs == [] then []
    else BlockEvents(rules, source, txs[..|txs| - 1]) + EventsOf(rules, source, txs[|txs| - 1])
  }

  function LockEvents(events: seq<CustodyEvent>): nat {
    if events == [] then 0
    else LockEvents(events[..|events| - 1]) + if events[|events| - 1].kind == "signer_locked" then 1 else 0
  }

  predicate RiskyTransaction(rules: Rules, tx: Transaction) {
    exists j :: 0 <= j < |tx.authorizations| && RiskOf(rules, tx, tx.authorizations[j]).Some?
  }

  function RiskyCount(rules: Rules, txs: seq<Transaction>): nat {
    if txs == [] then 0
    else RiskyCount(rules, txs[..|txs| - 1]) + if RiskyTransaction(rules, txs[|txs| - 1]) then 1 else 0
  }

  lemma {:induction false} LockEventsAppend(a: seq<CustodyEvent>, b: seq<CustodyEvent>)
    ensures LockEvents(a + b) == LockEvents(a) + LockEvents(b)
  {
    if b == [] {
      assert a + b == a;
    } else {
      assert (a + b)[..|a + b| - 1] == a + b[..|b| - 1];
      LockEventsAppend(a, b[..|b| - 1]);
    }
  }

  /** In shadow mode a block is reported transaction by transaction: every one that holds a
      risk exactly once, however many of its authorizations are risks. */
  lemma {:induction false} EachRiskyTransactionOnce(rules: Rules, source: string, txs: seq<Transaction>)
    ensures LockEvents(BlockEvents(rules, source, txs)) == RiskyCount(rules, txs)
  {
    if txs != [] {
      var m := |txs| - 1;
      EachRiskyTransactionOnce(rules, source, txs[..m]);
      LockEventsAppend(BlockEvents(rules, source, txs[..m]), EventsOf(rules, source, txs[m]));
      OneLockEvent(rules, source, txs[m]);
    }
  }

  lemma OneLockEvent(rules: Rules, source: string, tx: Transaction)
    ensures LockEvents(EventsOf(rules, source, tx)) == if RiskyTransaction(rules, tx) then 1 else 0
  {
    hide RiskOf, ReasonOf;
    var j := FirstFrom(rules, tx, 0);
    if j < |tx.authorizations| {
      var auth := tx.authorizations[j];
      var risk := RiskOf(rules, tx, auth).value;
      var alarm, locked := AlarmOf(tx, auth, risk), [LockEvent(ReasonOf(source, tx, auth, risk))];
      LockEventsAppend(alarm, locked);
      assert locked[..0] == [] && (alarm != [] ==> alarm[..0] == []);
    }
  }

  lemma SafeInside(rules: Rules, txs: seq<Transaction>, i: nat, j: nat)
    requires i < |txs| && SafeBefore(rules, txs, i, 0) && FirstInside(rules, txs[i], j)
    ensures if j < |txs[i].authorizations| then FirstRisk(rules, txs, i, j) else SafeBefore(rules, txs, i + 1, 0)
  {
    hide RiskOf;
    forall k: nat, l: nat | k < i || (k == i && l < j)
      ensures !Risky(rules, txs, k, l)
    {
    }
    if j == |txs[i].authorizations| {
      forall k: nat, l: nat | k < i + 1
        ensures !Risky(rules, txs, k, l)
      {
      }
    }
  }

  class CustodyGuard {
    const cfg: Config
    const store: PostgresSignerStore
    const protectedWallets: set<string>
    const allowedSelectors: set<seq<byte>>
    var trusted: map<string, string>
    var locked: bool
    var reason: string
    var scanning: bool

    /** NewCustodyGuard, once it has a wallet to protect. */
    constructor (cfg: Config, store: PostgresSignerStore, protectedWallets: set<string>, delegates: set<string>,
                 allowedSelectors: set<seq<byte>>)
      ensures this.store == store
      ensures State() == CustodySpec.State(cfg, false, "", false, store.incidents)
      ensures GuardRules()
           == Rules(protectedWallets, map d | d in delegates :: ZERO_HASH, allowedSelectors)
    {
      this.cfg, this.store := cfg, store;
      this.protectedWallets, this.allowedSelectors := protectedWallets, allowedSelectors;
      trusted := map d | d in delegates :: ZERO_HASH;
      locked, reason, scanning := false, "", false;
    }

    function State(): CustodySpec.State
      reads this, store
    {
      CustodySpec.State(cfg, locked, reason, scanning, store.incidents)
    }

    function GuardRules(): Rules
      reads this
    {
      Rules(protectedWallets, trusted, allowedSelectors)
    }

    method Lock(reason: string, now: int)
      modifies this`locked, this`reason, store`incidents, store`events
      ensures State() == CustodySpec.Lock(old(State()), reason, now)
      ensures store.events == old(store.events) + [LockEvent(reason)]
    {
      store.RecordCustodyEvent(CustodyEvent("signer_locked", reason, "", ""));
      if cfg.mode.Shadow? {
        return;
      }
      locked := true;
      this.reason := reason;
      store.OpenCustodyIncident(reason, cfg.mode, now);
    }

    method Unlock(note: string, now: int) returns (r: Result<()>)
      modifies this`locked, this`reason, store`incidents, store`events
      ensures State() == CustodySpec.Unlock(old(State()), note, now)
      ensures r.Ok? <==> !UnlockRefused(old(State()), now)
      ensures r.Ok? ==> !CustodyRuns.AnyOpen(store.incidents)
      ensures store.events
           == old(store.events) + if r.Ok? then [CustodyEvent("signer_unlocked", note, "", "")] else []
    {
      var incident := store.ActiveCustodyIncident();
      if incident.Some? {
        if cfg.cooldownSeconds > 0 && now - incident.value.createdAt < cfg.cooldownSeconds * SECOND {
          return Err("cooldown de custodia ainda ativo");
        }
        store.ResolveCustodyIncident(note, now);
      }
      locked := false;
      reason := "";
      store.RecordCustodyEvent(CustodyEvent("signer_unlocked", note, "", ""));
      return Ok(());
    }

    /** All delegates get the hash of their code, or the first that has none stops it. */
    method LoadTrustedDelegateHashes(codes: string -> Code) returns (error: Option<string>)
      modifies this`trusted
      ensures trusted.Keys == old(trusted).Keys
      ensures error.None? <==> forall d :: d in trusted ==> codes(d).Code?
      ensures error.None? ==> forall d :: d in trusted ==> trusted[d] == codes(d).hash
      ensures forall d :: d in trusted && trusted[d] != old(trusted)[d] ==>
                codes(d).Code? && trusted[d] == codes(d).hash
    {
      ghost var before := trusted;
      var unseen := trusted.Keys;
      while unseen != {}
        invariant unseen <= trusted.Keys == before.Keys
        invariant forall d :: d in before && d in unseen ==> trusted[d] == before[d]
        invariant forall d :: d in before && d !in unseen ==> codes(d).Code? && trusted[d] == codes(d).hash
      {
        var delegate :| delegate in unseen;
        unseen := unseen - {delegate};
        match codes(delegate) {
          case Unreadable =>
            return Some("sem RPC para ler bytecode");
          case Empty =>
            return Some("trusted delegate sem bytecode: " + delegate);
          case Code(hash) =>
            trusted := trusted[delegate := hash];
        }
      }
      return None;
    }

    /** Up to the polling loop: a guard just made takes over the open incident, and locks
        itself when a delegate's code cannot be read. */
    method Start(codes: string -> Code, now: int) returns (loadError: Option<string>)
      requires !locked && reason == "" && !scanning
      modifies this, store`incidents, store`events
      ensures State() == Restart(old(State()), cfg, loadError, now)
      ensures cfg.enabled ==> (loadError.None? <==> forall d :: d in old(trusted) ==> codes(d).Code?)
    {
      loadError := None;
      if !cfg.enabled {
        return;
      }
      var incident := store.ActiveCustodyIncident();
      if incident.Some? {
        locked := true;
        reason := PersistentReason(incident.value);
      }
      loadError := LoadTrustedDelegateHashes(codes);
      if loadError.Some? {
        Lock(LoadFailure(loadError.value), now);
        return;
      }
      scanning := true;
    }

    /** The code is verified exactly when the first RPC that answers tells the expected
        hash; whatever later RPCs would say plays no part. */
    static method VerifyDelegateHash(auth: Authorization, expected: string) returns (error: Option<string>)
      ensures error.None? <==> exists k: nat :: FirstAnswer(auth.answers, k, expected)
      ensures error.Some? ==>
                error.value == if forall k :: 0 <= k < |auth.answers| ==> auth.answers[k].None?
                               then NO_RPC + auth.delegate else auth.delegate
    {
      for k := 0 to |auth.answers|
        invariant forall l :: 0 <= l < k ==> auth.answers[l].None?
      {
        if auth.answers[k].Some? {
          if auth.answers[k].value != expected {
            return Some(auth.delegate);
          }
          assert FirstAnswer(auth.answers, k, expected);
          return None;
        }
      }
      return Some(NO_RPC + auth.delegate);
    }

    /** One authorization of a set-code transaction: its reason to lock, if it is a risk. */
    method CheckAuthorization(source: string, tx: Transaction, auth: Authorization, selector: seq<byte>)
      returns (found: Option<string>)
      requires tx.setCode && selector == CalldataSelector(tx.data)
      modifies store`events
      ensures var risk := RiskOf(GuardRules(), tx, auth);
              found == (if risk.Some? then Some(ReasonOf(source, tx, auth, risk.value)) else None)
              && store.events == old(store.events) + if risk.Some? then AlarmOf(tx, auth, risk.value) else []
      ensures found.Some? <==> Threat(GuardRules(), tx, auth)
      ensures found.Some? ==> Tells(GuardRules(), tx, auth, found.value)
      ensures store.events
           == old(store.events)
              + if found.Some? && SelectorDisallowed(GuardRules(), tx)
                then [CustodyEvent("unknown_selector", "EIP-7702 selector nao permitido", tx.hash,
                                   auth.authority.value)]
                else if found.Some? && DelegateUntrusted(GuardRules(), auth)
                then [CustodyEvent("unknown_delegate", "EIP-7702 delegate desconhecido", tx.hash,
                                   auth.authority.value)]
                else []
    {
      ReadsAs(GuardRules(), source, tx, auth);
      hide CalldataSelector, Threat, Tells, SelectorDisallowed, DelegateUntrusted;
      if auth.authority.None? || auth.authority.value !in protectedWallets {
        return None;
      }
      if allowedSelectors != {} && selector !in allowedSelectors {
        store.RecordCustodyEvent(CustodyEvent("unknown_selector", "EIP-7702 selector nao permitido", tx.hash,
                                              auth.authority.value));
        return Some(ReasonOf(source, tx, auth, UnknownSelector));
      }
      if auth.delegate !in trusted {
        store.RecordCustodyEvent(CustodyEvent("unknown_delegate", "EIP-7702 delegate desconhecido", tx.hash,
                                              auth.authority.value));
        return Some(ReasonOf(source, tx, auth, UnknownDelegate));
      }
      var expected := trusted[auth.delegate];
      if expected != ZERO_HASH {
        var error := VerifyDelegateHash(auth, expected);
        ObservedIff(auth.answers, expected);
        if error.Some? {
          return Some(CHANGED + error.value);
        }
      }
      return None;
    }

    /** The first risk of the transaction locks the guard and ends the inspection. */
    method InspectTransaction(source: string, tx: Transaction, now: int) returns (ghost first: nat)
      modifies this`locked, this`reason, store`incidents, store`events
      ensures FirstInside(GuardRules(), tx, first)
      ensures State() == if first < |tx.authorizations|
                         then CustodySpec.Lock(old(State()), ReasonAt(GuardRules(), source, tx, first), now)
                         else old(State())
      ensures store.events == old(store.events) + EventsOf(GuardRules(), source, tx)
    {
      hide RiskOf, ReasonOf, AlarmOf;
      if !tx.setCode {
        NoSetCode(GuardRules(), tx);
        return |tx.authorizations|;
      }
      var selector := CalldataSelector(tx.data);
      var j := 0;
      while j < |tx.authorizations|
        invariant j <= |tx.authorizations| && locked == old(locked) && reason == old(reason)
        invariant store.incidents == old(store.incidents) && store.events == old(store.events)
        invariant forall l :: 0 <= l < j ==> RiskOf(GuardRules(), tx, tx.authorizations[l]).None?
      {
        var found := CheckAuthorization(source, tx, tx.authorizations[j], selector);
        if found.Some? {
          Lock(found.value, now);
          return j;
        }
        j := j + 1;
      }
      return j;
    }

    /** The blocks' transactions in order, until the guard is locked. */
    method ScanBlock(source: string, txs: seq<Transaction>, now: int)
      requires !locked
      modifies this`locked, this`reason, store`incidents, store`events
      ensures cfg.mode.Shadow? ==> State() == old(State())
                                   && store.events == old(store.events) + BlockEvents(GuardRules(), source, txs)
      ensures !cfg.mode.Shadow? ==> (locked <==> AnyRisk(GuardRules(), txs))
      ensures locked ==> ReportsFirst(GuardRules(), source, txs, reason)
                         && State() == CustodySpec.Lock(old(State()), reason, now)
      ensures !locked ==> State() == old(State())
    {
      hide RiskOf, ReasonOf, Risky, EventsOf;
      var i := 0;
      while i < |txs|
        invariant i <= |txs| && !locked && reason == old(reason) && store.incidents == old(store.incidents)
        invariant !cfg.mode.Shadow? ==> SafeBefore(GuardRules(), txs, i, 0)
        invariant cfg.mode.Shadow? ==>
                    store.events == old(store.events) + BlockEvents(GuardRules(), source, txs[..i])
      {
        assert txs[..i + 1][..i] == txs[..i] && txs[..i + 1][i] == txs[i];
        ghost var first := InspectTransaction(source, txs[i], now);
        if !cfg.mode.Shadow? {
          SafeInside(GuardRules(), txs, i, first);
        }
        if locked {
          return;
        }
        i := i + 1;
      }
      assert txs[..i] == txs;
      if !cfg.mode.Shadow? {
        SafeToTheEnd(GuardRules(), txs);
      }
    }

    /** The first endpoint that answers is the one believed. */
    method ScanBlockTag(tag: string, responses: seq<Option<seq<Transaction>>>, now: int) returns (answered: bool)
      requires !locked
      modifies this`locked, this`reason, store`incidents, store`events
      ensures answered <==> exists k :: 0 <= k < |responses| && responses[k].Some?
      ensures cfg.mode.Shadow? ==> State() == old(State())
      ensures !cfg.mode.Shadow? ==> (locked <==> AnyRisk(GuardRules(), Answer(responses)))
      ensures locked ==> ReportsFirst(GuardRules(), tag, Answer(responses), reason)
                         && State() == CustodySpec.Lock(old(State()), reason, now)
      ensures !locked ==> State() == old(State())
    {
      hide AnyRisk, ReportsFirst;
      var k := 0;
      while k < |responses|
        invariant k <= |responses| && !locked && reason == old(reason) && store.incidents == old(store.incidents)
        invariant forall l :: 0 <= l < k ==> responses[l].None?
        invariant Answer(responses) == Answer(responses[k..])
      {
        if responses[k].Some? {
          ScanBlock(tag, responses[k].value, now);
          return true;
        }
        k := k + 1;
      }
      NoRiskInNothing(GuardRules());
      return false;
    }

    /** Main result: one poll of a started guard that is not locked is a scan step of the
        guard's runs. Outside shadow mode it locks if and only if the pending or the latest
        block, as the first endpoint that answers tells it, holds a risk, and the reason is
        that of the first one, pending before latest. */
    method ScanOnce(pending: seq<Option<seq<Transaction>>>, latest: seq<Option<seq<Transaction>>>, now: int)
      returns (ghost found: Option<string>)
      requires scanning && !locked
      modifies this`locked, this`reason, store`incidents, store`events
      ensures State() == CustodyRuns.Apply(old(State()), CustodyRuns.Scan(found, now))
      ensures !cfg.mode.Shadow? ==>
                (found.Some? <==> AnyRisk(GuardRules(), Answer(pending)) || AnyRisk(GuardRules(), Answer(latest)))
      ensures found.Some? ==>
                if AnyRisk(GuardRules(), Answer(pending))
                then ReportsFirst(GuardRules(), "pending", Answer(pending), found.value)
                else ReportsFirst(GuardRules(), "latest", Answer(latest), found.value)
      ensures !cfg.mode.Shadow? ==>
                (locked <==> Threatened(GuardRules(), Answer(pending)) || Threatened(GuardRules(), Answer(latest)))
      ensures locked ==>
                if Threatened(GuardRules(), Answer(pending)) then TellsFirst(GuardRules(), Answer(pending), reason)
                else TellsFirst(GuardRules(), Answer(latest), reason)
      ensures cfg.mode.Shadow? ==> !locked
    {
      hide AnyRisk, ReportsFirst, Answer, Threatened, TellsFirst;
      AnyRiskIff(GuardRules(), "pending", Answer(pending));
      AnyRiskIff(GuardRules(), "latest", Answer(latest));
      var _ := ScanBlockTag("pending", pending, now);
      if locked {
        return Some(reason);
      }
      var _ := ScanBlockTag("latest", latest, now);
      return if locked then Some(reason) else None;
    }
  }

  lemma NoSetCode(rules: Rules, tx: Transaction)
    requires !tx.setCode
    ensures FirstInside(rules, tx, |tx.authorizations|)
  {
  }

  lemma SafeToTheEnd(rules: Rules, txs: seq<Transaction>)
    requires SafeBefore(rules, txs, |txs|, 0)
    ensures !AnyRisk(rules, txs)
  {
    forall i: nat, j: nat
      ensures !Risky(rules, txs, i, j)
    {
    }
  }

  lemma NoRiskInNothing(rules: Rules)
    ensures !AnyRisk(rules, [])
  {
  }
}

/** What a transfer's attempts at one endpoint after the other leave in the store. */
module Attempts {
  import opened Amounts
  import opened NonceCounter
  import opened SignerTransactions
  import opened Text
  import Floats
  import Totals
  import Treasury

  /** How far an attempt at one endpoint gets. It fails before a nonce is reserved (dial,
      chain id, pending nonce), before it is signed (gas price, calldata, signature), when
      it is broadcast, or not at all. */
  datatype Attempt =
    | Unreachable
    | NotSigned(chainPending: uint64)
    | NotBroadcast(chainPending: uint64, hash: string, reason: string)
    | Broadcast(chainPending: uint64, hash: string)

  datatype Job = Job(key: string, wallet: string, to: string, request: Treasury.Request)

  /** The nonce counters and the transaction table. */
  datatype Book = Book(counters: map<string, uint64>, records: Records)

  function RecordOf(job: Job, nonce: uint64, hash: string, status: Treasury.Status, reason: string)
    : SignerTransaction
  {
    var account := Treasury.AccountOf(job.request);
    SignerTransaction(job.key, job.wallet, job.to, account.token, Treasury.RecordedAmount(job.request), account.network,
                      nonce, hash, status, reason, 0)
  }

  function CounterOf(job: Job): string {
    CounterKey(job.wallet, job.request.network)
  }

  predicate Hashed(attempt: Attempt) {
    attempt.NotBroadcast? || attempt.Broadcast?
  }

  /** The attempt is signed: it gets that far, and parseUnits takes the amount. */
  predicate Signs(cfg: Treasury.Setting, job: Job, attempt: Attempt) {
    Hashed(attempt) && Treasury.Signable(cfg, job.request)
  }

  predicate Sends(cfg: Treasury.Setting, job: Job, attempt: Attempt) {
    attempt.Broadcast? && Treasury.Signable(cfg, job.request)
  }

  function Attempted(cfg: Treasury.Setting, book: Book, job: Job, attempt: Attempt): Book {
    if attempt.Unreachable? then book
    else
      var nonce := Next(book.counters, CounterOf(job), attempt.chainPending);
      var counters := book.counters[CounterOf(job) := nonce];
      if !Signs(cfg, job, attempt) then Book(counters, book.records)
      else if attempt.Broadcast?
      then Book(counters, book.records[attempt.hash := RecordOf(job, nonce, attempt.hash, Treasury.Submitted, "")])
      else
        Book(counters,
             book.records[attempt.hash := RecordOf(job, nonce, attempt.hash, Treasury.Failed, attempt.reason)])
  }

  function AfterAttempts(cfg: Treasury.Setting, book: Book, job: Job, attempts: seq<Attempt>): Book {
    if attempts == [] then book
    else Attempted(cfg, AfterAttempts(cfg, book, job, attempts[..|attempts| - 1]), job, attempts[|attempts| - 1])
  }

  /** A transaction hash covers its nonce, so no attempt repeats one. */
  predicate FreshHashes(records: Records, attempts: seq<Attempt>) {
    (forall i :: 0 <= i < |attempts| && Hashed(attempts[i]) ==> attempts[i].hash !in records)
    && forall i, j :: (0 <= i < j < |attempts| && Hashed(attempts[i]) && Hashed(attempts[j])) ==>
                        attempts[i].hash != attempts[j].hash
  }

  predicate NoneSent(cfg: Treasury.Setting, job: Job, attempts: seq<Attempt>) {
    forall i :: 0 <= i < |attempts| ==> !Sends(cfg, job, attempts[i])
  }

  /** The k-th endpoint is the first that sends. */
  predicate FirstSent(cfg: Treasury.Setting, job: Job, attempts: seq<Attempt>, k: nat) {
    k < |attempts| && Sends(cfg, job, attempts[k]) && forall l :: 0 <= l < k ==> !Sends(cfg, job, attempts[l])
  }

  /** The attempts the failover loop makes: up to and including the first that sends. */
  predicate StopsWhenSent(cfg: Treasury.Setting, job: Job, attempts: seq<Attempt>, tried: nat) {
    tried <= |attempts| && NoneSent(cfg, job, if tried == 0 then [] else attempts[..tried - 1])
    && (tried == |attempts| || (tried > 0 && Sends(cfg, job, attempts[tried - 1])))
  }

  /** The record tells of this job, as one transaction with this nonce and hash. */
  predicate Recorded(tx: SignerTransaction, job: Job, nonce: nat, hash: string) {
    && tx.idempotencyKey == job.key && tx.walletFrom == job.wallet && tx.walletTo == job.to
    && tx.network == job.request.network && tx.nonce == nonce && tx.txHash == hash && tx.confirmations == 0
    && (job.request.Transfer? ==> tx.token == job.request.token && tx.amount == job.request.amount)
    && (job.request.ContractCall? ==>
          tx.token == TrimSpace(job.request.token)
          && tx.amount == if TrimSpace(job.request.amount) == "" then "0" else job.request.amount)
  }

  /** What one endpoint leaves: nothing if it cannot be reached; otherwise the counter of the
      wallet and network moves on, and an attempt that is signed, and no other, leaves one
      record, submitted if it was broadcast and failed if not. */
  lemma AttemptLeaves(cfg: Treasury.Setting, book: Book, job: Job, attempt: Attempt)
    ensures var after, counter := Attempted(cfg, book, job, attempt), job.wallet + "|" + job.request.network;
            if attempt.Unreachable? then after == book
            else
              && counter in after.counters && after.counters - {counter} == book.counters - {counter}
              && after.counters[counter] == Next(book.counters, counter, attempt.chainPending)
              && if attempt.NotSigned?
                    || (job.request.Transfer? && Units(job.request.amount, cfg.decimals(job.request.token)).Err?)
                 then after.records == book.records
                 else
                   && attempt.hash in after.records && after.records - {attempt.hash} == book.records - {attempt.hash}
                   && Recorded(after.records[attempt.hash], job, after.counters[counter], attempt.hash)
                   && (attempt.Broadcast? ==> after.records[attempt.hash].status == Treasury.Submitted)
                   && (attempt.NotBroadcast? ==> after.records[attempt.hash].status == Treasury.Failed
                                                 && after.records[attempt.hash].reason == attempt.reason)
  {
    hide Units, TrimSpace, Next;
  }

  // ---- the treasury's view ---------------------------------------------------------------

  /** A run of the treasury leaves these rows, with these still to be looked up; all that was
      sent is recorded. */
  ghost predicate Leaves(cfg: Treasury.Setting, history: seq<Treasury.Step>, records: Records, pending: seq<string>) {
    LeavesState(Treasury.Run(cfg, history), records, pending)
  }

  predicate LeavesState(s: Treasury.State, records: Records, pending: seq<string>) {
    s.rows == RowsOf(records) && s.pending == pending && s.sent.Keys <= records.Keys
  }

  function TreasuryStep(cfg: Treasury.Setting, job: Job, attempt: Attempt): seq<Treasury.Step> {
    if Signs(cfg, job, attempt)
    then [Treasury.Send(job.request, attempt.hash, attempt.Broadcast?, true, 0, 0)] else []
  }

  function TreasurySteps(cfg: Treasury.Setting, job: Job, attempts: seq<Attempt>): seq<Treasury.Step> {
    if attempts == [] then []
    else TreasurySteps(cfg, job, attempts[..|attempts| - 1]) + TreasuryStep(cfg, job, attempts[|attempts| - 1])
  }

  lemma RowsUpdate(records: Records, hash: string, tx: SignerTransaction)
    ensures RowsOf(records[hash := tx]) == RowsOf(records)[hash := RowOf(tx)]
  {
  }

  /** The records after the attempts hold the old ones and the attempts' hashes. */
  lemma {:induction false} OnlyTheirHashes(cfg: Treasury.Setting, book: Book, job: Job, attempts: seq<Attempt>,
                                           hash: string)
    requires hash in AfterAttempts(cfg, book, job, attempts).records
    ensures hash in book.records || exists i :: 0 <= i < |attempts| && Hashed(attempts[i]) && attempts[i].hash == hash
  {
    hide Treasury.Signable;
    if attempts != [] {
      var m := |attempts| - 1;
      if Hashed(attempts[m]) && attempts[m].hash == hash {
      } else {
        OnlyTheirHashes(cfg, book, job, attempts[..m], hash);
        if hash !in book.records {
          var i :| 0 <= i < m && Hashed(attempts[..m][i]) && attempts[..m][i].hash == hash;
          assert attempts[i] == attempts[..m][i];
        }
      }
    }
  }

  /** The record an attempt that signs leaves. */
  lemma SignedRecord(cfg: Treasury.Setting, book: Book, job: Job, attempt: Attempt)
    requires Signs(cfg, job, attempt)
    ensures RowsOf(Attempted(cfg, book, job, attempt).records)
         == RowsOf(book.records)[attempt.hash := Treasury.NewRow(job.request, attempt.Broadcast?, 0)]
    ensures Attempted(cfg, book, job, attempt).records.Keys == book.records.Keys + {attempt.hash}
  {
    hide Treasury.Signable, Treasury.RecordedAmount, Treasury.AccountOf;
    var nonce := Next(book.counters, CounterOf(job), attempt.chainPending);
    RowsUpdate(book.records, attempt.hash,
               RecordOf(job, nonce, attempt.hash, if attempt.Broadcast? then Treasury.Submitted else Treasury.Failed,
                        if attempt.Broadcast? then "" else attempt.reason));
  }

  /** An attempt is a step of the treasury's run, or none. */
  lemma AttemptIsStep(cfg: Treasury.Setting, s: Treasury.State, book: Book, job: Job, attempt: Attempt)
    requires LeavesState(s, book.records, []) && (Hashed(attempt) ==> attempt.hash !in book.records)
    requires Treasury.Accepted(cfg, RowsOf(book.records), job.request, 0)
    ensures var t := if Signs(cfg, job, attempt) then Treasury.Apply(cfg, s, TreasuryStep(cfg, job, attempt)[0]) else s;
            LeavesState(t, Attempted(cfg, book, job, attempt).records, [])
  {
    if Signs(cfg, job, attempt) {
      SignedRecord(cfg, book, job, attempt);
      hide Treasury.Accepted, Treasury.NewRow, Attempted;
    }
  }

  /** An attempt that does not send leaves the check's answer as it was. */
  lemma StillAccepted(cfg: Treasury.Setting, book: Book, job: Job, attempt: Attempt)
    requires !Sends(cfg, job, attempt) && (Hashed(attempt) ==> attempt.hash !in book.records)
    requires Treasury.Accepted(cfg, RowsOf(book.records), job.request, 0)
    ensures Treasury.Accepted(cfg, RowsOf(Attempted(cfg, book, job, attempt).records), job.request, 0)
  {
    if Signs(cfg, job, attempt) {
      SignedRecord(cfg, book, job, attempt);
      hide Treasury.TreasuryError, Treasury.Outflow, Attempted;
      FailedRowAddsNothing(cfg, RowsOf(book.records), attempt.hash, Treasury.NewRow(job.request, false, 0),
                           Treasury.AccountOf(job.request), Treasury.Queried(cfg.backend, 0));
    }
  }

  lemma FailedRowAddsNothing(cfg: Treasury.Setting, rows: Treasury.Rows, hash: string, row: Treasury.Row,
                             account: Treasury.Account, window: Treasury.Window)
    requires hash !in rows && row.status == Treasury.Failed
    ensures Treasury.Outflow(cfg.parse, rows[hash := row], account, window)
         == Treasury.Outflow(cfg.parse, rows, account, window)
  {
    var parts, more := Treasury.Parts(cfg.parse, rows, account, window), rows[hash := row];
    hide Treasury.Read;
    assert Treasury.Part(cfg.parse, row, account, window) == Floats.ZERO;
    hide Treasury.Part;
    assert Treasury.Parts(cfg.parse, more, account, window) == parts[hash := Floats.ZERO];
    Totals.TotalAdd(parts, hash, Floats.ZERO);
    Totals.TotalEnds(Totals.Total(parts));
  }

  lemma FreshBefore(cfg: Treasury.Setting, book: Book, job: Job, attempts: seq<Attempt>)
    requires attempts != [] && FreshHashes(book.records, attempts)
    ensures var m := |attempts| - 1;
            FreshHashes(book.records, attempts[..m])
            && (Hashed(attempts[m]) ==> attempts[m].hash !in AfterAttempts(cfg, book, job, attempts[..m]).records)
  {
    hide AfterAttempts;
    var m := |attempts| - 1;
    if Hashed(attempts[m]) && attempts[m].hash in AfterAttempts(cfg, book, job, attempts[..m]).records {
      OnlyTheirHashes(cfg, book, job, attempts[..m], attempts[m].hash);
    }
  }

  /** The last attempt extends the run that the ones before it are. */
  lemma LastAttemptExtends(cfg: Treasury.Setting, history: seq<Treasury.Step>, book: Book, job: Job, attempt: Attempt)
    requires Leaves(cfg, history, book.records, []) && (Hashed(attempt) ==> attempt.hash !in book.records)
    requires Treasury.Accepted(cfg, RowsOf(book.records), job.request, 0)
    ensures var after := Attempted(cfg, book, job, attempt).records;
            && Leaves(cfg, history + TreasuryStep(cfg, job, attempt), after, [])
            && (!Sends(cfg, job, attempt) ==> Treasury.Accepted(cfg, RowsOf(after), job.request, 0))
  {
    hide Treasury.Apply, Treasury.Accepted, Treasury.Run, RowsOf, Attempted, LeavesState, Treasury.Signable;
    AttemptIsStep(cfg, Treasury.Run(cfg, history), book, job, attempt);
    if !Sends(cfg, job, attempt) {
      StillAccepted(cfg, book, job, attempt);
    }
    RunOneMore(cfg, history, TreasuryStep(cfg, job, attempt));
  }

  /** However often a checked request is retried, its records are a run of the treasury:
      the check made once before the first attempt holds for every one of them. */
  lemma {:induction false} AttemptsAreRun(cfg: Treasury.Setting, history: seq<Treasury.Step>, book: Book, job: Job,
                                          attempts: seq<Attempt>)
    requires Leaves(cfg, history, book.records, []) && FreshHashes(book.records, attempts)
    requires Treasury.Accepted(cfg, RowsOf(book.records), job.request, 0)
    requires attempts != [] ==> NoneSent(cfg, job, attempts[..|attempts| - 1])
    ensures var after := AfterAttempts(cfg, book, job, attempts).records;
            && Leaves(cfg, history + TreasurySteps(cfg, job, attempts), after, [])
            && (NoneSent(cfg, job, attempts) ==> Treasury.Accepted(cfg, RowsOf(after), job.request, 0))
  {
    hide Leaves, Treasury.Accepted, RowsOf, Attempted, FreshHashes, TreasuryStep, Sends;
    if attempts == [] {
      assert history + TreasurySteps(cfg, job, attempts) == history;
    } else {
      var m := |attempts| - 1;
      var before := attempts[..m];
      FreshBefore(cfg, book, job, attempts);
      AttemptsAreRun(cfg, history, book, job, before);
      LastAttemptExtends(cfg, history + TreasurySteps(cfg, job, before), AfterAttempts(cfg, book, job, before), job,
                         attempts[m]);
      assert history + TreasurySteps(cfg, job, attempts)
          == history + TreasurySteps(cfg, job, before) + TreasuryStep(cfg, job, attempts[m]);
    }
  }

  lemma RunOneMore(cfg: Treasury.Setting, history: seq<Treasury.Step>, more: seq<Treasury.Step>)
    requires |more| <= 1
    ensures var s := Treasury.Run(cfg, history);
            Treasury.Run(cfg, history + more) == if more == [] then s else Treasury.Apply(cfg, s, more[0])
  {
    hide Treasury.Apply;
    if more == [] {
      assert history + more == history;
    } else {
      assert (history + more)[..|history|] == history && (history + more)[|history|] == more[0];
    }
  }

  // ---- the nonces of the attempts ----------------------------------------------------------

  function NonceAt(cfg: Treasury.Setting, book: Book, job: Job, attempts: seq<Attempt>, i: nat): uint64
    requires i < |attempts| && !attempts[i].Unreachable?
  {
    Next(AfterAttempts(cfg, book, job, attempts[..i]).counters, CounterOf(job), attempts[i].chainPending)
  }

  predicate BelowLast(cfg: Treasury.Setting, book: Book, job: Job, attempts: seq<Attempt>) {
    forall i :: 0 <= i < |attempts| && !attempts[i].Unreachable? ==>
      NonceAt(cfg, book, job, attempts, i) < UINT64_LIMIT - 1
  }

  lemma {:induction false} CounterStays(cfg: Treasury.Setting, book: Book, job: Job, attempts: seq<Attempt>, i: nat,
                                        j: nat)
    requires i < j <= |attempts| && !attempts[i].Unreachable? && BelowLast(cfg, book, job, attempts)
    ensures var counters := AfterAttempts(cfg, book, job, attempts[..j]).counters;
            CounterOf(job) in counters
            && NonceAt(cfg, book, job, attempts, i) <= counters[CounterOf(job)] < UINT64_LIMIT - 1
  {
    var last := attempts[j - 1];
    assert attempts[..j][..j - 1] == attempts[..j - 1] && attempts[..j][j - 1] == last;
    if i < j - 1 {
      CounterStays(cfg, book, job, attempts, i, j - 1);
      if !last.Unreachable? {
        NextIncreases(AfterAttempts(cfg, book, job, attempts[..j - 1]).counters, CounterOf(job), last.chainPending);
        assert NonceAt(cfg, book, job, attempts, j - 1) < UINT64_LIMIT - 1;
      }
    }
  }

  /** A retry never reuses the nonce of an earlier attempt, whatever pending nonces the
      endpoints report. */
  lemma RetriesTakeNewNonces(cfg: Treasury.Setting, book: Book, job: Job, attempts: seq<Attempt>, i: nat, j: nat)
    requires i < j < |attempts| && !attempts[i].Unreachable? && !attempts[j].Unreachable?
    requires BelowLast(cfg, book, job, attempts)
    ensures NonceAt(cfg, book, job, attempts, i) < NonceAt(cfg, book, job, attempts, j)
  {
    CounterStays(cfg, book, job, attempts, i, j);
    NextIncreases(AfterAttempts(cfg, book, job, attempts[..j]).counters, CounterOf(job), attempts[j].chainPending);
  }
}

/** The flows of main.go over the memory store. Ghost histories tie what a method leaves in
    the store to the runs that Idempotency and Treasury reason about. */
module Signer {
  import opened Amounts
  import opened Attempts
  import opened Floats
  import opened MemoryStore
  import opened SignerTransactions
  import opened Totals
  import opened Wrappers
  import Idempotency
  import Treasury

  /** The store holds what this run of the treasury leaves, with no monitor pass under way. */
  ghost predicate Tracks(cfg: Treasury.Setting, history: seq<Treasury.Step>, records: Records) {
    cfg.backend.Memory? && Leaves(cfg, history, records, [])
  }

  /** A request over a limit is recorded under the limit it broke. */
  function LimitEvents(error: Option<string>): seq<CustodyEvent> {
    if error == Some("treasury lockdown")
    then [CustodyEvent("treasury_lockdown_threshold", "limite de lockdown diario excedido", "", "")]
    else if error == Some("limite diario de treasury excedido")
    then [CustodyEvent("treasury_daily_limit", "limite diario excedido", "", "")]
    else []
  }

  /** validateTreasuryPolicy and validateContractCallTreasuryPolicy. */
  method ValidateTreasuryPolicy(store: MemorySignerStore, cfg: Treasury.Setting, req: Treasury.Request)
    returns (error: Option<string>)
    modifies store`events
    ensures error == Treasury.TreasuryError(cfg.parse, cfg.limits, req,
                       Treasury.Outflow(cfg.parse, RowsOf(store.transactions), Treasury.AccountOf(req),
                                        Treasury.AllDays))
    ensures store.events == old(store.events) + LimitEvents(error)
    ensures error == Some("treasury lockdown") ==>
              store.events == old(store.events) + [CustodyEvent("treasury_lockdown_threshold",
                                                                "limite de lockdown diario excedido", "", "")]
    ensures error == Some("limite diario de treasury excedido") ==>
              store.events == old(store.events) + [CustodyEvent("treasury_daily_limit", "limite diario excedido", "",
                                                                "")]
  {
    hide Add, Exceeds, AtMost, Treasury.Blank, Treasury.AccountOf, Treasury.Outflow;
    if Treasury.Blank(req) {
      return None;
    }
    var amount := Treasury.ParseAmount(cfg.parse, req.amount);
    if amount.Err? {
      return Some(amount.error);
    }
    var account := Treasury.AccountOf(req);
    var outflow := store.DailySubmittedOutflow(account.token, account.network, cfg.parse);
    var next := Add(outflow, amount.value);
    if cfg.limits.lockThreshold > 0.0 && Exceeds(next, Finite(cfg.limits.lockThreshold)) {
      store.RecordCustodyEvent(CustodyEvent("treasury_lockdown_threshold", "limite de lockdown diario excedido", "",
                                            ""));
      return Some("treasury lockdown");
    }
    if cfg.limits.maxDailyOut > 0.0 && Exceeds(next, Finite(cfg.limits.maxDailyOut)) {
      store.RecordCustodyEvent(CustodyEvent("treasury_daily_limit", "limite diario excedido", "", ""));
      return Some("limite diario de treasury excedido");
    }
    return None;
  }

  /** executeEVMTransferWithClient and its contract-call twin: one endpoint. */
  method TryEndpoint(store: MemorySignerStore, cfg: Treasury.Setting, job: Job, attempt: Attempt)
    returns (r: Result<Idempotency.Response>)
    requires store.Valid()
    modifies store`chainNonces, store`transactions, store`events
    ensures store.Valid()
    ensures Book(store.chainNonces, store.transactions)
         == Attempted(cfg, old(Book(store.chainNonces, store.transactions)), job, attempt)
    ensures r.Ok? <==> Sends(cfg, job, attempt)
    ensures r.Ok? ==> r.value == Idempotency.Response(attempt.hash, job.wallet, job.request.network)
    ensures store.events
         == old(store.events)
            + (if attempt.Unreachable? then [] else [CustodyEvent("nonce_reserved", "", "", job.wallet)])
            + (if r.Ok? then [CustodyEvent("tx_submitted", "", attempt.hash, job.wallet)] else [])
  {
    hide Units;
    if attempt.Unreachable? {
      return Err("endpoint failed");
    }
    var nonce := store.ReserveChainNonce(job.wallet, job.request.network, attempt.chainPending);
    store.RecordCustodyEvent(CustodyEvent("nonce_reserved", "", "", job.wallet));
    if job.request.Transfer? {
      var amount := ParseUnits(job.request.amount, cfg.decimals(job.request.token));
      if amount.Err? {
        return Err(amount.error);
      }
    }
    match attempt {
      case NotSigned(_) =>
        return Err("not signed");
      case NotBroadcast(_, hash, reason) =>
        store.CreateSignerTransaction(RecordOf(job, nonce, hash, Treasury.Failed, reason));
        return Err("falha ao transmitir tx");
      case Broadcast(_, hash) =>
        store.CreateSignerTransaction(RecordOf(job, nonce, hash, Treasury.Submitted, ""));
        store.RecordCustodyEvent(CustodyEvent("tx_submitted", "", hash, job.wallet));
        return Ok(Idempotency.Response(hash, job.wallet, job.request.network));
    }
  }

  /** The failover loop: `attempts` is how the candidates of the fleet would fare. */
  method SendWithFailover(store: MemorySignerStore, cfg: Treasury.Setting, job: Job, attempts: seq<Attempt>)
    returns (r: Result<Idempotency.Response>, ghost tried: nat)
    requires store.Valid()
    modifies store`chainNonces, store`transactions, store`events
    ensures store.Valid() && StopsWhenSent(cfg, job, attempts, tried)
    ensures Book(store.chainNonces, store.transactions)
         == AfterAttempts(cfg, old(Book(store.chainNonces, store.transactions)), job, attempts[..tried])
    ensures r.Ok? <==> !NoneSent(cfg, job, attempts)
    ensures r.Ok? ==> tried > 0 && FirstSent(cfg, job, attempts, tried - 1)
                      && r.value == Idempotency.Response(attempts[tried - 1].hash, job.wallet, job.request.network)
  {
    hide Treasury.Signable, Attempted;
    ghost var before := Book(store.chainNonces, store.transactions);
    r, tried := Err("nenhum RPC BSC disponivel"), 0;
    var i := 0;
    while i < |attempts|
      invariant i == tried <= |attempts| && store.Valid() && r.Err?
      invariant NoneSent(cfg, job, attempts[..i])
      invariant Book(store.chainNonces, store.transactions) == AfterAttempts(cfg, before, job, attempts[..i])
    {
      r := TryEndpoint(store, cfg, job, attempts[i]);
      assert attempts[..i + 1][..i] == attempts[..i] && attempts[..i + 1][i] == attempts[i];
      i, tried := i + 1, tried + 1;
      if r.Ok? {
        return;
      }
    }
    assert attempts[..i] == attempts;
    assert i > 0 ==> attempts[..i - 1] == attempts[..i][..i - 1];
  }

  /** The attempts, once the checks are passed. */
  method SendChecked(store: MemorySignerStore, cfg: Treasury.Setting, job: Job, attempts: seq<Attempt>,
                     ghost history: seq<Treasury.Step>)
    returns (r: Result<Idempotency.Response>, ghost longer: seq<Treasury.Step>)
    requires store.Valid() && Tracks(cfg, history, store.transactions)
    requires FreshHashes(store.transactions, attempts)
    requires Treasury.Accepted(cfg, RowsOf(store.transactions), job.request, 0)
    modifies store`chainNonces, store`transactions, store`events
    ensures store.Valid() && history <= longer && Tracks(cfg, longer, store.transactions)
    ensures r.Ok? <==> (exists k :: 0 <= k < |attempts| && attempts[k].Broadcast?)
                       && (job.request.Transfer? ==>
                             Units(job.request.amount, cfg.decimals(job.request.token)).Ok?)
    ensures r.Ok? ==> exists k: nat :: FirstSent(cfg, job, attempts, k)
                        && r.value == Idempotency.Response(attempts[k].hash, job.wallet, job.request.network)
    ensures r.Ok? ==> r.value.txHash in store.transactions && r.value.txHash !in old(store.transactions)
                      && store.transactions[r.value.txHash].status == Treasury.Submitted
  {
    hide Leaves, Units, Treasury.Accepted;
    ghost var before := Book(store.chainNonces, store.transactions);
    ghost var tried;
    r, tried := SendWithFailover(store, cfg, job, attempts);
    FreshPrefix(cfg, job, before.records, attempts, tried);
    AttemptsAreRun(cfg, history, before, job, attempts[..tried]);
    longer := history + TreasurySteps(cfg, job, attempts[..tried]);
    assert r.Ok? ==> attempts[..tried][tried - 1] == attempts[tried - 1];
  }

  /** What else decides a request after its checks: a derivation index, which is not
      supported, an unusable key, and a simulation, which answers with a hash of its own. */
  datatype Circumstances = Circumstances(derived: bool, keyUsable: bool, simulation: Option<string>)

  predicate Refused(job: Job, c: Circumstances) {
    c.derived || job.request.network !in {"BSC", "EVM"} || !c.keyUsable
  }

  /** What it takes for a request to be answered: no check refuses it, no index is to be
      derived, the network and the key can be used, and it is simulated or some endpoint
      sends it. */
  ghost predicate Succeeds(cfg: Treasury.Setting, records: Records, job: Job, policyError: Option<string>,
                           c: Circumstances, attempts: seq<Attempt>)
  {
    && policyError.None? && Treasury.Accepted(cfg, RowsOf(records), job.request, 0)
    && (job.request.network == "BSC" || job.request.network == "EVM") && !c.derived && c.keyUsable
    && (c.simulation.Some?
        || ((exists k :: 0 <= k < |attempts| && attempts[k].Broadcast?)
            && (job.request.Transfer? ==> Units(job.request.amount, cfg.decimals(job.request.token)).Ok?)))
  }

  /** The hash of the simulation, or of what the first endpoint that sends was sent. */
  ghost predicate IsAnswer(cfg: Treasury.Setting, job: Job, c: Circumstances, attempts: seq<Attempt>,
                           response: Idempotency.Response)
  {
    && response.from == job.wallet && response.network == job.request.network
    && if c.simulation.Some? then response.txHash == c.simulation.value
       else exists k: nat :: FirstSent(cfg, job, attempts, k) && response.txHash == attempts[k].hash
  }

  /** executeTransfer and executeContractCall, after the policy check of policy.go: the
      treasury check, then the attempts. What they leave is again a treasury run, so all
      that Treasury proves holds of the store. */
  method Execute(store: MemorySignerStore, cfg: Treasury.Setting, job: Job, policyError: Option<string>,
                 c: Circumstances, attempts: seq<Attempt>, ghost history: seq<Treasury.Step>)
    returns (r: Result<Idempotency.Response>, ghost longer: seq<Treasury.Step>)
    requires store.Valid() && Tracks(cfg, history, store.transactions)
    requires FreshHashes(store.transactions, attempts)
    modifies store`chainNonces, store`transactions, store`events
    ensures store.Valid() && history <= longer && Tracks(cfg, longer, store.transactions)
    ensures policyError.Some? || !Treasury.Accepted(cfg, RowsOf(old(store.transactions)), job.request, 0)
            || Refused(job, c) ==>
              r.Err? && store.transactions == old(store.transactions) && store.chainNonces == old(store.chainNonces)
    ensures r.Ok? <==> Succeeds(cfg, old(store.transactions), job, policyError, c, attempts)
    ensures r.Ok? ==> IsAnswer(cfg, job, c, attempts, r.value)
    ensures r.Ok? && c.simulation.Some? ==>
              r.value.txHash == c.simulation.value && store.transactions == old(store.transactions)
              && store.chainNonces == old(store.chainNonces)
    ensures r.Ok? && c.simulation.None? ==>
              r.value.txHash in store.transactions && r.value.txHash !in old(store.transactions)
              && store.transactions[r.value.txHash].status == Treasury.Submitted
  {
    hide Leaves, Units, Treasury.TreasuryError, Sends;
    r, longer := Err("refused"), history;
    if policyError.Some? {
      return Err(policyError.value), history;
    }
    var error := ValidateTreasuryPolicy(store, cfg, job.request);
    if error.Some? {
      return Err(error.value), history;
    }
    if c.derived {
      return Err("derivacao HD ainda nao habilitada para assinatura de hot wallet"), history;
    }
    if job.request.network !in {"BSC", "EVM"} {
      return Err("rede nao suportada"), history;
    }
    if !c.keyUsable {
      return Err("EVM_PRIVATE_KEY invalida"), history;
    }
    if c.simulation.Some? {
      return Ok(Idempotency.Response(c.simulation.value, job.wallet, job.request.network)), history;
    }
    r, longer := SendChecked(store, cfg, job, attempts, history);
  }

  lemma FreshPrefix(cfg: Treasury.Setting, job: Job, records: Records, attempts: seq<Attempt>, tried: nat)
    requires FreshHashes(records, attempts) && StopsWhenSent(cfg, job, attempts, tried)
    ensures FreshHashes(records, attempts[..tried])
    ensures tried > 0 ==> NoneSent(cfg, job, attempts[..tried][..tried - 1])
  {
    hide Sends;
    assert tried > 0 ==> attempts[..tried][..tried - 1] == attempts[..tried - 1];
  }

  // ---- the monitor -----------------------------------------------------------------------------

  function ReceiptStatus(success: bool): Treasury.Status {
    if success then Treasury.Confirmed else Treasury.Reverted
  }

  function ReceiptReason(success: bool): string {
    if success then "" else "receipt status failed"
  }

  function HashesOf(items: seq<SignerTransaction>): (hashes: seq<string>)
    ensures |hashes| == |items| && forall i :: 0 <= i < |items| ==> hashes[i] == items[i].txHash
  {
    if items == [] then [] else HashesOf(items[..|items| - 1]) + [items[|items| - 1].txHash]
  }

  lemma TreasuryOneMore(cfg: Treasury.Setting, history: seq<Treasury.Step>, step: Treasury.Step)
    ensures Treasury.Run(cfg, history + [step]) == Treasury.Apply(cfg, Treasury.Run(cfg, history), step)
  {
    RunOneMore(cfg, history, [step]);
  }

  /** What the monitor's marking leaves of a record. */
  predicate Checked(before: SignerTransaction, after: SignerTransaction, listed: bool, receipts: map<string, bool>) {
    after == if listed && before.txHash in receipts
             then WithStatus(before, ReceiptStatus(receipts[before.txHash]), ReceiptReason(receipts[before.txHash]), 1)
             else before
  }

  lemma ListIsStep(cfg: Treasury.Setting, history: seq<Treasury.Step>, records: Records,
                   listed: seq<SignerTransaction>)
    requires Tracks(cfg, history, records)
    requires forall i, j :: 0 <= i < j < |listed| ==> listed[i].txHash != listed[j].txHash
    requires forall i :: 0 <= i < |listed| ==> listed[i].txHash in records && IsOpen(records[listed[i].txHash])
    ensures Leaves(cfg, history + [Treasury.List(HashesOf(listed))], records, HashesOf(listed))
  {
    hide Treasury.Run, HashesOf, Treasury.SendDue;
    TreasuryOneMore(cfg, history, Treasury.List(HashesOf(listed)));
  }

  function MarkedRecords(records: Records, hash: string, receipts: map<string, bool>): Records {
    if hash in records && hash in receipts
    then records[hash := WithStatus(records[hash], ReceiptStatus(receipts[hash]), ReceiptReason(receipts[hash]), 1)]
    else records
  }

  function ReceiptFor(hash: string, receipts: map<string, bool>): Option<bool> {
    if hash in receipts then Some(receipts[hash]) else None
  }

  lemma MarkIsStep(cfg: Treasury.Setting, history: seq<Treasury.Step>, records: Records,
                   hash: string, rest: seq<string>, receipts: map<string, bool>)
    requires hash in records
    requires Leaves(cfg, history, records, [hash] + rest)
    ensures Leaves(cfg, history + [Treasury.Mark(ReceiptFor(hash, receipts))], MarkedRecords(records, hash, receipts),
                   rest)
  {
    TreasuryOneMore(cfg, history, Treasury.Mark(ReceiptFor(hash, receipts)));
    hide Treasury.Run, Treasury.SendDue;
    assert ([hash] + rest)[1..] == rest;
    if hash in receipts {
      RowsUpdate(records, hash,
                 WithStatus(records[hash], ReceiptStatus(receipts[hash]), ReceiptReason(receipts[hash]), 1));
    }
  }

  /** One listed transaction. */
  method CheckOne(store: MemorySignerStore, item: SignerTransaction, receipts: map<string, bool>)
    requires store.Valid() && item.txHash in store.transactions
    modifies store`transactions, store`events
    ensures store.Valid()
    ensures store.transactions == MarkedRecords(old(store.transactions), item.txHash, receipts)
    ensures store.events
         == old(store.events)
            + if item.txHash !in receipts then []
              else [CustodyEvent(if receipts[item.txHash] then "tx_confirmed" else "tx_reverted", "", item.txHash,
                                 item.walletFrom)]
  {
    if item.txHash in receipts {
      var success := receipts[item.txHash];
      store.MarkSignerTransactionStatus(item.txHash, ReceiptStatus(success), ReceiptReason(success), 1);
      store.RecordCustodyEvent(CustodyEvent(if success then "tx_confirmed" else "tx_reverted", "", item.txHash,
                                            item.walletFrom));
    }
  }

  /** The first i of the listed transactions have been looked up. */
  ghost predicate CheckedSoFar(before: Records, records: Records, listed: seq<SignerTransaction>,
                               receipts: map<string, bool>)
  {
    records.Keys == before.Keys
    && forall h :: h in before ==> Checked(before[h], records[h], before[h] in listed, receipts)
  }

  lemma NothingChecked(records: Records, listed: seq<SignerTransaction>, receipts: map<string, bool>)
    ensures CheckedSoFar(records, records, listed[..0], receipts)
    ensures HashesOf(listed)[0..] == HashesOf(listed)
    ensures listed[..|listed|] == listed && HashesOf(listed)[|listed|..] == []
  {
  }

  lemma CheckNext(before: Records, records: Records, listed: seq<SignerTransaction>, item: SignerTransaction,
                  receipts: map<string, bool>)
    requires KeyedByHash(before) && CheckedSoFar(before, records, listed, receipts)
    requires item.txHash in before && before[item.txHash] == item && item !in listed
    ensures CheckedSoFar(before, MarkedRecords(records, item.txHash, receipts), listed + [item], receipts)
  {
  }

  ghost predicate ListOf(listed: seq<SignerTransaction>, records: Records) {
    (forall i, j :: 0 <= i < j < |listed| ==> listed[i].txHash != listed[j].txHash)
    && forall i :: 0 <= i < |listed| ==>
         listed[i].txHash in records && records[listed[i].txHash] == listed[i] && IsOpen(listed[i])
  }

  /** What a pass tells of the transactions it listed: a successful receipt confirms, a
      failed one reverts, and nothing else changes. */
  lemma ReceiptDecides(before: Records, after: Records, listed: seq<SignerTransaction>, receipts: map<string, bool>)
    requires KeyedByHash(before) && CheckedSoFar(before, after, listed, receipts)
    ensures after.Keys == before.Keys
    ensures forall h :: h in before && before[h] in listed && h in receipts && receipts[h] ==>
              after[h] == before[h].(status := Treasury.Confirmed, reason := "", confirmations := 1)
    ensures forall h :: h in before && before[h] in listed && h in receipts && !receipts[h] ==>
              after[h] == before[h].(status := Treasury.Reverted, reason := "receipt status failed",
                                     confirmations := 1)
    ensures forall h :: h in before && (before[h] !in listed || h !in receipts) ==> after[h] == before[h]
  {
  }

  /** What the failed receipts of a pass take off an outflow, row by row. */
  function TakenOff(parse: Treasury.Parser, records: Records, listed: seq<SignerTransaction>,
                    receipts: map<string, bool>, account: Treasury.Account): map<string, Float>
  {
    map h | h in records ::
      if records[h] in listed && h in receipts && !receipts[h]
      then Treasury.Part(parse, RowOf(records[h]), account, Treasury.AllDays) else ZERO
  }

  /** A pass takes off an outflow exactly the parts of the rows whose receipts failed, NaN and
      infinities included; if all receipts succeeded, nothing. */
  lemma PassOutflow(parse: Treasury.Parser, before: Records, after: Records, listed: seq<SignerTransaction>,
                    receipts: map<string, bool>, account: Treasury.Account)
    requires KeyedByHash(before) && CheckedSoFar(before, after, listed, receipts) && ListOf(listed, before)
    requires Treasury.NoneSigned(RowsOf(before))
    ensures Treasury.Outflow(parse, RowsOf(before), account, Treasury.AllDays)
         == Add(Treasury.Outflow(parse, RowsOf(after), account, Treasury.AllDays),
                Total(TakenOff(parse, before, listed, receipts, account)))
    ensures (forall h :: h in receipts ==> receipts[h]) ==>
              Treasury.Outflow(parse, RowsOf(after), account, Treasury.AllDays)
              == Treasury.Outflow(parse, RowsOf(before), account, Treasury.AllDays)
  {
    var old', new', taken := Treasury.Parts(parse, RowsOf(before), account, Treasury.AllDays),
                             Treasury.Parts(parse, RowsOf(after), account, Treasury.AllDays),
                             TakenOff(parse, before, listed, receipts, account);
    assert after.Keys == before.Keys;
    assert (forall h :: h in receipts ==> receipts[h]) ==> forall h :: h in taken ==> taken[h] == ZERO;
    hide CheckedSoFar, KeyedByHash, ListOf, Treasury.Part, Treasury.NoneSigned, Add;
    forall h | h in before
      ensures old'[h] == Add(new'[h], taken[h])
    {
      PassPart(parse, before, after, listed, receipts, account, h);
    }
    TotalOfTwo(old', new', taken);
    if forall h :: h in receipts ==> receipts[h] {
      TotalOfZeros(taken);
      AddZero(Total(new'));
    }
  }

  lemma PassPart(parse: Treasury.Parser, before: Records, after: Records, listed: seq<SignerTransaction>,
                 receipts: map<string, bool>, account: Treasury.Account, h: string)
    requires KeyedByHash(before) && CheckedSoFar(before, after, listed, receipts) && ListOf(listed, before)
    requires Treasury.NoneSigned(RowsOf(before)) && h in before
    ensures Treasury.Part(parse, RowOf(before[h]), account, Treasury.AllDays)
         == Add(Treasury.Part(parse, RowOf(after[h]), account, Treasury.AllDays),
                TakenOff(parse, before, listed, receipts, account)[h])
  {
    assert RowsOf(before)[h].status != Treasury.Signed;
    assert before[h] in listed ==> before[h].status == Treasury.Submitted;
    ReceiptDecides(before, after, listed, receipts);
    hide CheckedSoFar, KeyedByHash, ListOf, RowsOf, RowOf, Treasury.NoneSigned, Treasury.Part, Add;
    AddZero(Treasury.Part(parse, RowOf(before[h]), account, Treasury.AllDays));
    if before[h] in listed && h in receipts {
      ReceiptPart(parse, before[h], after[h], receipts[h], account);
    }
  }

  lemma ReceiptPart(parse: Treasury.Parser, before: SignerTransaction, after: SignerTransaction, success: bool,
                    account: Treasury.Account)
    requires before.status == Treasury.Submitted
    requires after.status == if success then Treasury.Confirmed else Treasury.Reverted
    requires after.token == before.token && after.network == before.network && after.amount == before.amount
    ensures Treasury.Part(parse, RowOf(after), account, Treasury.AllDays)
         == if success then Treasury.Part(parse, RowOf(before), account, Treasury.AllDays) else ZERO
  {
    hide Treasury.Read;
  }

  lemma NotYetChecked(listed: seq<SignerTransaction>, records: Records, i: nat)
    requires ListOf(listed, records) && i < |listed|
    ensures listed[i] !in listed[..i] && listed[i].txHash in records && records[listed[i].txHash] == listed[i]
  {
  }

  lemma TakeOne<T>(s: seq<T>, i: nat)
    requires i < |s|
    ensures s[..i + 1] == s[..i] + [s[i]] && s[i..] == [s[i]] + s[i + 1..]
  {
  }

  /** What looking up the i-th of them does to the run and to the records. */
  lemma ListedStep(cfg: Treasury.Setting, history: seq<Treasury.Step>, before: Records,
                   records: Records, listed: seq<SignerTransaction>, receipts: map<string, bool>, i: nat)
    requires KeyedByHash(before) && ListOf(listed, before) && i < |listed|
    requires CheckedSoFar(before, records, listed[..i], receipts)
    requires Leaves(cfg, history, records, HashesOf(listed)[i..])
    ensures var hash := listed[i].txHash;
            && hash in records
            && Leaves(cfg, history + [Treasury.Mark(ReceiptFor(hash, receipts))],
                      MarkedRecords(records, hash, receipts), HashesOf(listed)[i + 1..])
            && CheckedSoFar(before, MarkedRecords(records, hash, receipts), listed[..i + 1], receipts)
  {
    assert records.Keys == before.Keys;
    hide *;
    NotYetChecked(listed, before, i);
    TakeOne(listed, i);
    TakeOne(HashesOf(listed), i);
    MarkIsStep(cfg, history, records, listed[i].txHash, HashesOf(listed)[i + 1..], receipts);
    CheckNext(before, records, listed[..i], listed[i], receipts);
  }

  /** The loop over the listed transactions. */
  method CheckListed(store: MemorySignerStore, listed: seq<SignerTransaction>, receipts: map<string, bool>,
                     ghost cfg: Treasury.Setting, ghost history: seq<Treasury.Step>)
    returns (ghost longer: seq<Treasury.Step>)
    requires store.Valid() && ListOf(listed, store.transactions)
    requires Leaves(cfg, history, store.transactions, HashesOf(listed))
    modifies store`transactions, store`events
    ensures store.Valid() && history <= longer
    ensures Leaves(cfg, longer, store.transactions, [])
    ensures CheckedSoFar(old(store.transactions), store.transactions, listed, receipts)
  {
    longer := history;
    ghost var before, hashes := store.transactions, HashesOf(listed);
    NothingChecked(before, listed, receipts);
    assert KeyedByHash(before);
    hide *;
    var i := 0;
    while i < |listed|
      invariant i <= |listed| && store.Valid() && history <= longer
      invariant Leaves(cfg, longer, store.transactions, hashes[i..])
      invariant CheckedSoFar(before, store.transactions, listed[..i], receipts)
    {
      ListedStep(cfg, longer, before, store.transactions, listed, receipts, i);
      longer := longer + [Treasury.Mark(ReceiptFor(listed[i].txHash, receipts))];
      CheckOne(store, listed[i], receipts);
      i := i + 1;
    }
  }

  /** checkSignerTransactions: `receipts` tells, for the transactions the first endpoint that
      answers knows, whether they succeeded; `reachable` whether any endpoint answers. */
  method CheckSignerTransactions(store: MemorySignerStore, receipts: map<string, bool>, reachable: bool,
                                 ghost cfg: Treasury.Setting, ghost history: seq<Treasury.Step>)
    returns (listed: seq<SignerTransaction>, ghost longer: seq<Treasury.Step>)
    requires store.Valid() && Tracks(cfg, history, store.transactions)
    modifies store`transactions, store`events
    ensures store.Valid() && history <= longer && Tracks(cfg, longer, store.transactions)
    ensures CheckedSoFar(old(store.transactions), store.transactions, if reachable then listed else [], receipts)
    ensures reachable ==>
              forall h :: h in old(store.transactions) && old(store.transactions)[h] in listed && h in receipts ==>
                h in store.transactions
                && store.transactions[h].status == if receipts[h] then Treasury.Confirmed else Treasury.Reverted
    ensures !reachable ==> store.transactions == old(store.transactions)
    ensures forall account ::
              Treasury.Outflow(cfg.parse, RowsOf(old(store.transactions)), account, Treasury.AllDays)
              == Add(Treasury.Outflow(cfg.parse, RowsOf(store.transactions), account, Treasury.AllDays),
                     Total(TakenOff(cfg.parse, old(store.transactions), if reachable then listed else [], receipts,
                                    account)))
    ensures (forall h :: h in receipts ==> receipts[h]) ==>
              forall account ::
                Treasury.Outflow(cfg.parse, RowsOf(store.transactions), account, Treasury.AllDays)
                == Treasury.Outflow(cfg.parse, RowsOf(old(store.transactions)), account, Treasury.AllDays)
    ensures ListOf(listed, old(store.transactions))
    ensures |listed| < 50 ==> forall h :: h in old(store.transactions) && IsOpen(old(store.transactions)[h]) ==>
                                old(store.transactions)[h] in listed
  {
    longer := history;
    ghost var before := store.transactions;
    listed := store.ListOpenSignerTransactions(50);
    TracksNoneSigned(cfg, history, before);
    hide Leaves, HashesOf, RowsOf, CheckedSoFar, TakenOff, Add, Treasury.Outflow, Treasury.NoneSigned;
    if |listed| == 0 || !reachable {
      PassLeaves(cfg.parse, before, before, [], receipts);
      return;
    }
    ListIsStep(cfg, history, store.transactions, listed);
    longer := CheckListed(store, listed, receipts, cfg, history + [Treasury.List(HashesOf(listed))]);
    PassLeaves(cfg.parse, before, store.transactions, listed, receipts);
  }

  lemma TracksNoneSigned(cfg: Treasury.Setting, history: seq<Treasury.Step>, records: Records)
    requires Tracks(cfg, history, records)
    ensures Treasury.NoneSigned(RowsOf(records))
  {
    Treasury.RunKeepsSubmitted(cfg, history);
  }

  /** PassOutflow for every account, and ReceiptDecides. */
  lemma PassLeaves(parse: Treasury.Parser, before: Records, after: Records, listed: seq<SignerTransaction>,
                   receipts: map<string, bool>)
    requires KeyedByHash(before) && (listed == [] ==> after == before)
    requires listed != [] ==> CheckedSoFar(before, after, listed, receipts) && ListOf(listed, before)
    requires Treasury.NoneSigned(RowsOf(before))
    ensures CheckedSoFar(before, after, listed, receipts)
    ensures forall h :: h in before && before[h] in listed && h in receipts ==>
              h in after && after[h].status == if receipts[h] then Treasury.Confirmed else Treasury.Reverted
    ensures forall account ::
              Treasury.Outflow(parse, RowsOf(before), account, Treasury.AllDays)
              == Add(Treasury.Outflow(parse, RowsOf(after), account, Treasury.AllDays),
                     Total(TakenOff(parse, before, listed, receipts, account)))
    ensures (forall h :: h in receipts ==> receipts[h]) ==>
              forall account ::
                Treasury.Outflow(parse, RowsOf(after), account, Treasury.AllDays)
                == Treasury.Outflow(parse, RowsOf(before), account, Treasury.AllDays)
  {
    hide TakenOff, Add, Treasury.Outflow, RowsOf, Treasury.NoneSigned;
    ReceiptDecides(before, after, listed, receipts);
    forall account
      ensures Treasury.Outflow(parse, RowsOf(before), account, Treasury.AllDays)
           == Add(Treasury.Outflow(parse, RowsOf(after), account, Treasury.AllDays),
                  Total(TakenOff(parse, before, listed, receipts, account)))
      ensures (forall h :: h in receipts ==> receipts[h]) ==>
                Treasury.Outflow(parse, RowsOf(after), account, Treasury.AllDays)
                == Treasury.Outflow(parse, RowsOf(before), account, Treasury.AllDays)
    {
      PassOutflow(parse, before, after, listed, receipts, account);
    }
  }
}

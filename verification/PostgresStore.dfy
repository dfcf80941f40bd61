/** The store kept in Postgres: its tables as fields, each SQL statement (or transaction) as
    one step that changes them. Statements that fail change nothing and are not shown. */
module PostgresStore {
  import opened CustodyRuns
  import opened CustodySpec
  import opened Floats
  import opened NonceCounter
  import opened Totals
  import opened Wrappers
  import Idempotency
  import MemoryStore
  import NonceTable
  import ReplayWindow
  import SignerTransactions
  import Treasury

  /** A row of signer_transactions; days are counted from any fixed one. */
  datatype TransactionRow = TransactionRow(tx: SignerTransactions.SignerTransaction, createdOn: int)

  type Transactions = map<string, TransactionRow>

  function RowOf(row: TransactionRow): Treasury.Row {
    Treasury.Row(Treasury.Account(row.tx.token, row.tx.network), row.tx.amount, row.tx.status, row.createdOn)
  }

  function RowsOf(rows: Transactions): Treasury.Rows {
    map h | h in rows :: RowOf(rows[h])
  }

  class PostgresSignerStore {
    var nonces: map<string, int>
    var results: map<string, Idempotency.Response>
    var locks: set<string>
    var chainNonces: NonceTable.Table
    var transactions: Transactions
    var incidents: Incidents
    var events: seq<MemoryStore.CustodyEvent>

    constructor ()
      ensures nonces == map[] && results == map[] && locks == {} && chainNonces == map[] && transactions == map[]
      ensures incidents == [] && events == []
    {
      nonces, results, locks, chainNonces, transactions := map[], map[], {}, map[], map[];
      incidents, events := [], [];
    }

    /** The first statement of AcceptNonce. */
    method DeleteExpired(now: int)
      modifies this`nonces
      ensures nonces == ReplayWindow.Purged(old(nonces), now)
    {
      nonces := map n | n in nonces && nonces[n] >= now :: nonces[n];
    }

    /** The second: whole seconds of life only, and no nonce that has a row. */
    method InsertNonce(nonce: string, now: int, ttl: nat) returns (inserted: bool)
      modifies this`nonces
      ensures inserted <==> nonce !in old(nonces)
      ensures nonces == if inserted then old(nonces)[nonce := now + ttl / SECOND * SECOND] else old(nonces)
    {
      inserted := nonce !in nonces;
      if inserted {
        nonces := nonces[nonce := now + ttl / SECOND * SECOND];
      }
    }

    /** Both with nothing in between, one clock reading each; an empty nonce is refused. A row
        that expires between the two readings still refuses its nonce. */
    method AcceptNonce(nonce: string, now: int, later: int, ttl: nat) returns (accepted: bool)
      modifies this`nonces
      ensures nonce == "" ==> !accepted && nonces == old(nonces)
      ensures nonce != "" ==> (accepted <==> ReplayWindow.NonceAccepted(old(nonces), nonce, now))
      ensures accepted <==> nonce != "" && (nonce !in old(nonces) || old(nonces)[nonce] < now)
      ensures nonce != "" ==>
                nonces == if accepted then ReplayWindow.Purged(old(nonces), now)[nonce := later + ttl / SECOND * SECOND]
                          else ReplayWindow.Purged(old(nonces), now)
    {
      if nonce == "" {
        return false;
      }
      DeleteExpired(now);
      accepted := InsertNonce(nonce, later, ttl);
    }

    method GetResult(key: string) returns (r: Option<Idempotency.Response>)
      ensures r.Some? <==> key != "" && key in results
      ensures r.Some? ==> r.value == results[key]
    {
      return if key != "" && key in results then Some(results[key]) else None;
    }

    /** The second statement of the claim. */
    method InsertLock(key: string) returns (inserted: bool)
      modifies this`locks
      ensures inserted <==> key !in old(locks)
      ensures locks == old(locks) + {key}
    {
      inserted := key !in locks;
      locks := locks + {key};
    }

    /** Both statements with nothing in between: then, and only then, the claim is the
        memory store's. */
    method ClaimResult(key: string) returns (claim: Idempotency.Claim)
      modifies this`locks
      ensures claim == Idempotency.ClaimAnswer(results, old(locks), key)
      ensures locks == if claim.Granted? then Idempotency.LockedBy(old(locks), key) else old(locks)
      ensures claim.Granted? <==> key == "" || (key !in results && key !in old(locks))
      ensures claim.Refused? <==> key != "" && key !in results && key in old(locks)
      ensures claim.Done? <==> key != "" && key in results
      ensures claim.Done? ==> claim.response == results[key]
      ensures locks == if claim.Granted? && key != "" then old(locks) + {key} else old(locks)
    {
      if key == "" {
        return Idempotency.Granted;
      }
      var previous := GetResult(key);
      if previous.Some? {
        return Idempotency.Done(previous.value);
      }
      var inserted := InsertLock(key);
      return if inserted then Idempotency.Granted else Idempotency.Refused;
    }

    method SaveResult(key: string, response: Idempotency.Response)
      modifies this`results, this`locks
      ensures results == Idempotency.Saved(Idempotency.Postgres, old(results), key, response)
      ensures locks == Idempotency.Unlocked(old(locks), key)
      ensures key == "" ==> results == old(results) && locks == old(locks)
      ensures key != "" ==>
                results == (if key in old(results) then old(results) else old(results)[key := response])
                && locks == old(locks) - {key}
    {
      if key == "" {
        return;
      }
      if key !in results {
        results := results[key := response];
      }
      locks := locks - {key};
    }

    method ReleaseClaim(key: string)
      modifies this`locks
      ensures locks == Idempotency.Unlocked(old(locks), key)
      ensures locks == if key != "" then old(locks) - {key} else old(locks)
    {
      if key != "" {
        locks := locks - {key};
      }
    }

    method RecordCustodyEvent(event: MemoryStore.CustodyEvent)
      modifies this`events
      ensures events == old(events) + [event]
    {
      events := events + [event];
    }

    /** The insert gives way to any unresolved row, whatever the query below would pick. */
    method OpenCustodyIncident(reason: string, mode: Mode, now: int)
      modifies this`incidents
      ensures incidents == Opened(old(incidents), reason, mode, now)
      ensures AtMostOneOpen(old(incidents)) ==> AtMostOneOpen(incidents)
    {
      ActiveIsOpen(incidents);
      OpenKeepsUnique(incidents, reason, mode, now);
      if !AnyOpen(incidents) {
        incidents := incidents + [Incident(reason, mode, now, None, "")];
      }
    }

    method ActiveCustodyIncident() returns (incident: Option<Incident>)
      ensures incident.Some? <==> AnyOpen(incidents)
      ensures incident == Active(incidents)
    {
      ActiveIsOpen(incidents);
      return Active(incidents);
    }

    method ResolveCustodyIncident(note: string, now: int)
      modifies this`incidents
      ensures incidents == Resolved(old(incidents), note, now)
      ensures !AnyOpen(incidents) && |incidents| == |old(incidents)|
    {
      ResolvedClosesAll(incidents, note, now);
      incidents := Resolved(incidents, note, now);
      ActiveIsOpen(incidents);
    }

    /** The transaction under the advisory lock: the max query, then the insert. */
    method ReserveChainNonce(wallet: string, network: string, chainPending: uint64) returns (r: Result<nat>)
      modifies this`chainNonces
      ensures r == NonceTable.Reserve(old(chainNonces), wallet, network, chainPending)
      ensures chainNonces
           == NonceTable.Apply(old(chainNonces), NonceTable.ReserveNonce(wallet, network, chainPending))
    {
      var live := NonceTable.LiveNonces(chainNonces, wallet, network);
      var next := chainPending;
      if live != {} {
        var max := NonceTable.MaxOf(live);
        if max + 1 > next {
          next := max + 1;
        }
      }
      if next >= NonceTable.BIGINT_LIMIT {
        return Err("nonce out of range");
      }
      var key := NonceTable.RowKey(wallet, network, next);
      if key in chainNonces {
        return Err("duplicate key");
      }
      chainNonces := chainNonces[key := NonceTable.Reserved];
      return Ok(next);
    }

    method MarkChainNonce(wallet: string, network: string, nonce: nat, status: NonceTable.Status)
      modifies this`chainNonces
      ensures chainNonces == NonceTable.Mark(old(chainNonces), NonceTable.RowKey(wallet, network, nonce), status)
    {
      var key := NonceTable.RowKey(wallet, network, nonce);
      if key in chainNonces {
        chainNonces := chainNonces[key := status];
      }
    }

    /** A hash already known keeps its row and creation day, and only takes the new status. */
    method CreateSignerTransaction(item: SignerTransactions.SignerTransaction, today: int)
      modifies this`transactions
      ensures item.txHash !in old(transactions) ==>
                RowsOf(transactions)
                == RowsOf(old(transactions))[item.txHash := RowOf(TransactionRow(item, today))]
      ensures item.txHash in old(transactions) ==>
                RowsOf(transactions) == Treasury.Marked(RowsOf(old(transactions)), item.txHash, item.status)
    {
      var row := TransactionRow(item, today);
      if item.txHash in transactions {
        var known := transactions[item.txHash];
        row := known.(tx := SignerTransactions.WithStatus(known.tx, item.status, item.reason, item.confirmations));
      }
      transactions := transactions[item.txHash := row];
    }

    method MarkSignerTransactionStatus(txHash: string, status: Treasury.Status, reason: string, confirmations: nat)
      modifies this`transactions
      ensures RowsOf(transactions) == Treasury.Marked(RowsOf(old(transactions)), txHash, status)
    {
      if txHash in transactions {
        var known := transactions[txHash];
        var row := known.(tx := SignerTransactions.WithStatus(known.tx, status, reason, confirmations));
        transactions := transactions[txHash := row];
      }
    }

    /** The query keeps today's rows; the loop adds up what parses. */
    method DailySubmittedOutflow(token: string, network: string, today: int, parse: Treasury.Parser)
      returns (total: Float)
      ensures total == Treasury.Outflow(parse, RowsOf(transactions), Treasury.Account(token, network),
                                        Treasury.Since(today))
    {
      var account, window := Treasury.Account(token, network), Treasury.Since(today);
      var selected := map h | h in transactions && Treasury.Counted(RowOf(transactions[h]), account, window)
                        :: transactions[h].tx.amount;
      ghost var parts := Treasury.Parts(parse, RowsOf(transactions), account, window);
      PartsOfSelected(parse, transactions, account, window, selected);
      ghost var left := parts;
      TotalEnds(Total(parts));
      hide *;
      total := ZERO;
      var unseen := selected.Keys;
      while unseen != {}
        invariant unseen <= selected.Keys
        invariant StillToAdd(parts, selected.Keys, unseen, left)
        invariant Add(total, Total(left)) == Total(parts)
      {
        var hash :| hash in unseen;
        TakeSelected(parts, selected.Keys, unseen, left, hash);
        TotalStep(total, left, hash);
        unseen, left := unseen - {hash}, left - {hash};
        var value := parse(selected[hash]);
        if value.Some? {
          total := Add(total, value.value);
        }
      }
      NothingCounts(parts, selected.Keys, left);
      TotalEnds(total);
    }
  }

  /** The rows the query keeps add what their text reads as, the others nothing. */
  lemma PartsOfSelected(parse: Treasury.Parser, rows: Transactions, account: Treasury.Account,
                        window: Treasury.Window, selected: map<string, string>)
    requires forall h :: h in selected <==> h in rows && Treasury.Counted(RowOf(rows[h]), account, window)
    requires forall h :: h in selected ==> selected[h] == rows[h].tx.amount
    ensures var parts := Treasury.Parts(parse, RowsOf(rows), account, window);
            && selected.Keys <= parts.Keys
            && (forall h :: h in selected ==>
                  parts[h] == if parse(selected[h]).Some? then parse(selected[h]).value else ZERO)
            && (forall h :: h in parts && h !in selected ==> parts[h] == ZERO)
            && StillToAdd(parts, selected.Keys, selected.Keys, parts)
  {
  }

  /** The parts of the rows not added yet, and of those the query left out. */
  ghost predicate StillToAdd(parts: map<string, Float>, selected: set<string>, unseen: set<string>,
                             left: map<string, Float>)
  {
    (forall h :: h in left <==> h in parts && (h !in selected || h in unseen))
    && forall h :: h in left ==> left[h] == parts[h]
  }

  lemma TakeSelected(parts: map<string, Float>, selected: set<string>, unseen: set<string>, left: map<string, Float>,
                     hash: string)
    requires StillToAdd(parts, selected, unseen, left) && hash in unseen && unseen <= selected <= parts.Keys
    ensures hash in left && left[hash] == parts[hash]
    ensures StillToAdd(parts, selected, unseen - {hash}, left - {hash})
  {
  }

  /** What the query leaves out adds nothing. */
  lemma NothingCounts(parts: map<string, Float>, selected: set<string>, left: map<string, Float>)
    requires StillToAdd(parts, selected, {}, left)
    requires forall h :: h in parts && h !in selected ==> parts[h] == ZERO
    ensures Total(left) == ZERO
  {
    TotalOfZeros(left);
  }

  lemma OpenKeepsUnique(rows: Incidents, reason: string, mode: Mode, now: int)
    ensures AtMostOneOpen(rows) ==> AtMostOneOpen(Opened(rows, reason, mode, now))
  {
    if AtMostOneOpen(rows) {
      OpenedHasOne(rows, reason, mode, now);
    }
  }
}

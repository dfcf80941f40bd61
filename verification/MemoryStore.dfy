/** The transaction records of store.go, and how the treasury sees them. */
module SignerTransactions {
  import opened Floats
  import opened NonceCounter
  import Treasury

  datatype SignerTransaction = SignerTransaction(
    idempotencyKey: string,
    walletFrom: string,
    walletTo: string,
    token: string,
    amount: string,
    network: string,
    nonce: uint64,
    txHash: string,
    status: Treasury.Status,
    reason: string,
    confirmations: nat)

  type Records = map<string, SignerTransaction>

  /** The memory store keeps no creation day, and never asks for one. */
  function RowOf(tx: SignerTransaction): Treasury.Row {
    Treasury.Row(Treasury.Account(tx.token, tx.network), tx.amount, tx.status, 0)
  }

  function RowsOf(records: Records): Treasury.Rows {
    map h | h in records :: RowOf(records[h])
  }

  predicate KeyedByHash(records: Records) {
    forall h :: h in records ==> records[h].txHash == h
  }

  predicate IsOpen(tx: SignerTransaction) {
    tx.status.Submitted? || tx.status.Signed?
  }

  function WithStatus(tx: SignerTransaction, status: Treasury.Status, reason: string, confirmations: nat)
    : SignerTransaction
  {
    tx.(status := status, reason := reason, confirmations := confirmations)
  }

  /** The outflow a list of records adds up to is the treasury's. */
  lemma CountedAsRow(parse: Treasury.Parser, records: Records, h: string, account: Treasury.Account)
    requires h in records
    ensures Treasury.Parts(parse, RowsOf(records), account, Treasury.AllDays)[h]
         == if records[h].token == account.token && records[h].network == account.network
               && (records[h].status.Submitted? || records[h].status.Confirmed?)
            then Treasury.Read(parse, records[h].amount) else ZERO
  {
  }
}

/** The store kept in process memory. Every method holds the store's mutex for its whole
    body, so each is one atomic step of the protocols that use it. */
module MemoryStore {
  import opened Wrappers
  import opened CustodySpec
  import opened Floats
  import opened NonceCounter
  import opened SignerTransactions
  import opened Totals
  import Idempotency
  import ReplayWindow
  import Treasury

  datatype CustodyEvent = CustodyEvent(kind: string, reason: string, txHash: string, wallet: string)

  /** What an unfinished purge has left of the entries. */
  predicate PurgedSoFar(before: map<string, int>, now: int, unseen: set<string>, entries: map<string, int>) {
    entries.Keys <= before.Keys
    && forall n :: n in before ==>
         (n in entries <==> n in unseen || !(now > before[n])) && (n in entries ==> entries[n] == before[n])
  }

  class MemorySignerStore {
    var nonces: map<string, int>
    var results: map<string, Idempotency.Response>
    var locks: set<string>
    var chainNonces: map<string, uint64>
    var transactions: Records
    var activeIncident: Option<Incident>
    var events: seq<CustodyEvent>

    constructor ()
      ensures Valid()
      ensures nonces == map[] && results == map[] && locks == {} && chainNonces == map[] && transactions == map[]
      ensures activeIncident == None && events == []
    {
      nonces, results, locks, chainNonces, transactions := map[], map[], {}, map[], map[];
      activeIncident, events := None, [];
    }

    ghost predicate Valid()
      reads this
    {
      KeyedByHash(transactions)
    }

    method AcceptNonce(nonce: string, now: int, ttl: nat) returns (accepted: bool)
      modifies this`nonces
      ensures accepted <==> ReplayWindow.NonceAccepted(old(nonces), nonce, now)
      ensures accepted <==> nonce !in old(nonces) || old(nonces)[nonce] < now
      ensures nonce in nonces && (accepted ==> nonces[nonce] == now + ttl)
      ensures nonces == ReplayWindow.AfterAccept(old(nonces), nonce, now, ttl)
    {
      ghost var before := nonces;
      var unseen := nonces.Keys;
      while unseen != {}
        invariant PurgedSoFar(before, now, unseen, nonces) && unseen <= nonces.Keys
      {
        var key :| key in unseen;
        unseen := unseen - {key};
        if now > nonces[key] {
          nonces := nonces - {key};
        }
      }
      assert nonces == ReplayWindow.Purged(before, now);
      if nonce in nonces {
        return false;
      }
      nonces := nonces[nonce := now + ttl];
      return true;
    }

    method GetResult(key: string) returns (r: Option<Idempotency.Response>)
      ensures r.Some? <==> key in results
      ensures r.Some? ==> r.value == results[key]
    {
      return if key in results then Some(results[key]) else None;
    }

    method ClaimResult(key: string) returns (claim: Idempotency.Claim)
      modifies this`locks
      ensures claim == Idempotency.ClaimAnswer(results, old(locks), key)
      ensures locks == if claim.Granted? then Idempotency.LockedBy(old(locks), key) else old(locks)
      ensures claim.Granted? <==> key == "" || (key !in results && key !in old(locks))
      ensures claim.Refused? <==> key != "" && key !in results && key in old(locks)
      ensures claim.Done? <==> key != "" && key in results
      ensures claim.Done? ==> claim.response == results[key]
      ensures locks == if claim.Granted? && key != "" then old(locks) + {key} else old(locks)
    {
      if key == "" {
        return Idempotency.Granted;
      }
      if key in results {
        return Idempotency.Done(results[key]);
      }
      if key in locks {
        return Idempotency.Refused;
      }
      locks := locks + {key};
      return Idempotency.Granted;
    }

    method SaveResult(key: string, response: Idempotency.Response)
      modifies this`results, this`locks
      ensures results == Idempotency.Saved(Idempotency.Memory, old(results), key, response)
      ensures locks == Idempotency.Unlocked(old(locks), key)
      ensures key == "" ==> results == old(results) && locks == old(locks)
      ensures key != "" ==> results == old(results)[key := response] && locks == old(locks) - {key}
    {
      if key == "" {
        return;
      }
      results := results[key := response];
      locks := locks - {key};
    }

    method ReleaseClaim(key: string)
      modifies this`locks
      ensures locks == Idempotency.Unlocked(old(locks), key)
      ensures locks == if key != "" then old(locks) - {key} else old(locks)
    {
      if key == "" {
        return;
      }
      locks := locks - {key};
    }

    method RecordCustodyEvent(event: CustodyEvent)
      modifies this`events
      ensures events == old(events) + [event]
    {
      events := events + [event];
    }

    method OpenCustodyIncident(reason: string, mode: Mode, now: int)
      modifies this`activeIncident
      ensures old(activeIncident).Some? ==> activeIncident == old(activeIncident)
      ensures old(activeIncident).None? ==> activeIncident == Some(Incident(reason, mode, now, None, ""))
    {
      if activeIncident.None? {
        activeIncident := Some(Incident(reason, mode, now, None, ""));
      }
    }

    method ResolveCustodyIncident()
      modifies this`activeIncident
      ensures activeIncident == None
    {
      activeIncident := None;
    }

    method ReserveChainNonce(wallet: string, network: string, chainPending: uint64) returns (nonce: uint64)
      modifies this`chainNonces
      ensures nonce == Next(old(chainNonces), CounterKey(wallet, network), chainPending)
      ensures chainNonces == old(chainNonces)[CounterKey(wallet, network) := nonce]
    {
      var key := wallet + "|" + network;
      nonce := chainPending;
      if key in chainNonces {
        var following := (chainNonces[key] + 1) % UINT64_LIMIT;
        if following > nonce {
          nonce := following;
        }
      }
      chainNonces := chainNonces[key := nonce];
    }

    method CreateSignerTransaction(item: SignerTransaction)
      requires Valid()
      modifies this`transactions
      ensures Valid() && transactions == old(transactions)[item.txHash := item]
    {
      transactions := transactions[item.txHash := item];
    }

    method MarkSignerTransactionStatus(txHash: string, status: Treasury.Status, reason: string, confirmations: nat)
      requires Valid()
      modifies this`transactions
      ensures Valid()
      ensures transactions
           == if txHash in old(transactions)
              then old(transactions)[txHash := WithStatus(old(transactions)[txHash], status, reason, confirmations)]
              else old(transactions)
      ensures RowsOf(transactions) == Treasury.Marked(RowsOf(old(transactions)), txHash, status)
    {
      if txHash !in transactions {
        return;
      }
      var item := WithStatus(transactions[txHash], status, reason, confirmations);
      transactions := transactions[txHash := item];
    }

    /** Map iteration has no order, so which rows a limit cuts off is left open. */
    method ListOpenSignerTransactions(limit: int) returns (open: seq<SignerTransaction>)
      requires Valid()
      ensures forall i, j :: 0 <= i < j < |open| ==> open[i].txHash != open[j].txHash
      ensures forall i :: 0 <= i < |open| ==>
                open[i].txHash in transactions && transactions[open[i].txHash] == open[i] && IsOpen(open[i])
      ensures limit > 0 ==> |open| <= limit
      ensures limit <= 0 || |open| < limit ==>
                forall h :: h in transactions && IsOpen(transactions[h]) ==> transactions[h] in open
    {
      open := [];
      var unseen := transactions.Keys;
      while unseen != {}
        invariant unseen <= transactions.Keys
        invariant limit > 0 ==> |open| < limit
        invariant forall i :: 0 <= i < |open| ==>
                    open[i].txHash in transactions && open[i].txHash !in unseen
                    && transactions[open[i].txHash] == open[i] && IsOpen(open[i])
        invariant forall i, j :: 0 <= i < j < |open| ==> open[i].txHash != open[j].txHash
        invariant forall h :: h in transactions && h !in unseen && IsOpen(transactions[h]) ==> transactions[h] in open
      {
        var hash :| hash in unseen;
        unseen := unseen - {hash};
        var item := transactions[hash];
        if IsOpen(item) {
          open := open + [item];
          if limit > 0 && |open| >= limit {
            break;
          }
        }
      }
    }

    /** The sum, whatever order the rows come in. */
    method DailySubmittedOutflow(token: string, network: string, parse: Treasury.Parser) returns (total: Float)
      ensures total == Treasury.Outflow(parse, RowsOf(transactions), Treasury.Account(token, network), Treasury.AllDays)
    {
      var account := Treasury.Account(token, network);
      hide Add;
      total := ZERO;
      var unseen := transactions.Keys;
      ghost var parts := Treasury.Parts(parse, RowsOf(transactions), account, Treasury.AllDays);
      ghost var left := parts;
      TotalEnds(Total(parts));
      while unseen != {}
        invariant left.Keys == unseen <= transactions.Keys
        invariant forall h :: h in left ==> left[h] == parts[h]
        invariant Add(total, Total(left)) == Total(parts)
      {
        var hash :| hash in unseen;
        unseen := unseen - {hash};
        TotalStep(total, left, hash);
        left := left - {hash};
        var item := transactions[hash];
        CountedAsRow(parse, transactions, hash, account);
        if item.token != token || item.network != network || (!item.status.Submitted? && !item.status.Confirmed?) {
          continue;
        }
        var value := parse(item.amount);
        if value.Some? {
          total := Add(total, value.value);
        }
      }
      assert left == map[];
      TotalEnds(total);
    }
  }
}

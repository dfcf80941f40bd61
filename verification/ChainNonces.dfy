/** The chain nonce reservation of the memory store: one uint64 counter per wallet and
    network. */
module NonceCounter {

  const UINT64_LIMIT := 0x1_0000_0000_0000_0000

  type uint64 = x: int | 0 <= x < 0x1_0000_0000_0000_0000

  /** The map key the source builds. */
  function CounterKey(wallet: string, network: string): string {
    wallet + "|" + network
  }

  /** A wallet without a bar, such as a hexadecimal address, keeps its counters to itself. */
  lemma CounterKeyInjective(w1: string, n1: string, w2: string, n2: string)
    requires '|' !in w1 && '|' !in w2
    ensures CounterKey(w1, n1) == CounterKey(w2, n2) <==> w1 == w2 && n1 == n2
  {
    var k1, k2 := CounterKey(w1, n1), CounterKey(w2, n2);
    assert k1[|w1|] == '|' && k2[|w2|] == '|';
    assert forall i :: 0 <= i < |w1| ==> k1[i] != '|';
    assert forall i :: 0 <= i < |w2| ==> k2[i] != '|';
    if k1 == k2 {
      assert |w1| == |w2|;
      assert k1[..|w1|] == w1 && k2[..|w2|] == w2;
      assert k1[|w1| + 1..] == n1 && k2[|w2| + 1..] == n2;
    }
  }

  /** A reservation: the larger of what the chain reports and the counter plus one. */
  function Next(counters: map<string, uint64>, key: string, chainPending: uint64): uint64 {
    if key in counters && (counters[key] + 1) % UINT64_LIMIT > chainPending
    then (counters[key] + 1) % UINT64_LIMIT else chainPending
  }

  datatype Request = Request(key: string, chainPending: uint64)

  /** The counters after a run of reservations by any wallets in any order. */
  function CountersAfter(requests: seq<Request>): (counters: map<string, uint64>) {
    if requests == [] then map[]
    else
      var before := CountersAfter(requests[..|requests| - 1]);
      var r := requests[|requests| - 1];
      before[r.key := Next(before, r.key, r.chainPending)]
  }

  /** The nonce the i-th reservation of a run returns. */
  function NonceOf(requests: seq<Request>, i: nat): uint64
    requires i < |requests|
  {
    Next(CountersAfter(requests[..i]), requests[i].key, requests[i].chainPending)
  }

  /** The chain reports that went with the reservations of one key, in order. */
  function Reports(requests: seq<Request>, key: string): seq<uint64> {
    if requests == [] then []
    else
      var r := requests[|requests| - 1];
      Reports(requests[..|requests| - 1], key) + if r.key == key then [r.chainPending] else []
  }

  /** The greatest of reports[j] + (n - 1 - j): each report advanced by the reservations
      made after it. */
  ghost predicate IsPeak(reports: seq<uint64>, value: int) {
    (forall j :: 0 <= j < |reports| ==> reports[j] + (|reports| - 1 - j) <= value)
    && exists j :: 0 <= j < |reports| && reports[j] + (|reports| - 1 - j) == value
  }

  /** No advanced report leaves the uint64 range. */
  predicate Fits(reports: seq<uint64>) {
    forall j :: 0 <= j < |reports| ==> reports[j] + (|reports| - 1 - j) < UINT64_LIMIT
  }

  lemma PeakStep(reports: seq<uint64>, report: uint64, value: int)
    requires reports == [] || IsPeak(reports, value)
    ensures IsPeak(reports + [report], if reports != [] && value + 1 > report then value + 1 else report)
  {
    var longer := reports + [report];
    assert longer[|reports|] == report;
    if reports != [] && value + 1 > report {
      var j :| 0 <= j < |reports| && reports[j] + (|reports| - 1 - j) == value;
      assert longer[j] == reports[j];
    }
  }

  lemma FitsPrefix(reports: seq<uint64>, report: uint64)
    requires Fits(reports + [report])
    ensures Fits(reports)
    ensures forall value :: IsPeak(reports, value) ==> value + 1 < UINT64_LIMIT
  {
    assert forall j :: 0 <= j < |reports| ==> (reports + [report])[j] == reports[j];
  }

  lemma {:induction false} CounterIsPeak(requests: seq<Request>, key: string)
    requires Fits(Reports(requests, key))
    ensures key in CountersAfter(requests) <==> Reports(requests, key) != []
    ensures key in CountersAfter(requests) ==> IsPeak(Reports(requests, key), CountersAfter(requests)[key])
  {
    if requests != [] {
      var before, r := requests[..|requests| - 1], requests[|requests| - 1];
      LastReport(requests, key);
      hide CountersAfter, Reports, Fits, IsPeak;
      if r.key == key {
        FitsPrefix(Reports(before, key), r.chainPending);
        CounterIsPeak(before, key);
        PeakStep(Reports(before, key), r.chainPending, if key in CountersAfter(before) then CountersAfter(before)[key]
                                                       else 0);
      } else {
        CounterIsPeak(before, key);
      }
    }
  }

  lemma LastReport(requests: seq<Request>, key: string)
    requires requests != []
    ensures var before, r := requests[..|requests| - 1], requests[|requests| - 1];
            if r.key == key
            then Reports(requests, key) == Reports(before, key) + [r.chainPending]
                 && key in CountersAfter(requests)
                 && CountersAfter(requests)[key] == Next(CountersAfter(before), key, r.chainPending)
            else Reports(requests, key) == Reports(before, key)
                 && (key in CountersAfter(requests) <==> key in CountersAfter(before))
                 && (key in CountersAfter(before) ==> CountersAfter(requests)[key] == CountersAfter(before)[key])
  {
  }

  /** Main result: whatever the chain reports and however other wallets interleave, a
      reservation returns the maximum of all earlier reports of its key, each advanced by
      the reservations made since; exactly as long as that maximum is a uint64. */
  lemma ReservationIsPeak(requests: seq<Request>, i: nat)
    requires i < |requests|
    ensures var reports := Reports(requests[..i + 1], requests[i].key);
            IsPeak(reports, NonceOf(requests, i)) <==> Fits(reports)
  {
    var upTo := requests[..i + 1];
    var key := requests[i].key;
    var reports := Reports(upTo, key);
    assert upTo[..i] == requests[..i] && upTo[i] == requests[i];
    assert CountersAfter(upTo)[key] == NonceOf(requests, i);
    if Fits(reports) {
      assert reports == Reports(requests[..i], key) + [requests[i].chainPending];
      CounterIsPeak(upTo, key);
    }
  }

  /** A reservation exceeds the previous one of its key unless that was the last uint64. */
  lemma NextIncreases(counters: map<string, uint64>, key: string, chainPending: uint64)
    requires key in counters
    ensures Next(counters, key, chainPending) > counters[key] <==> counters[key] < UINT64_LIMIT - 1
    ensures counters[key] < UINT64_LIMIT - 1 ==> Next(counters, key, chainPending) >= chainPending
  {
  }

  /** No reservation of the key returns the last uint64. */
  predicate BelowLast(requests: seq<Request>, key: string) {
    forall k :: 0 <= k < |requests| && requests[k].key == key ==> NonceOf(requests, k) < UINT64_LIMIT - 1
  }

  lemma {:induction false} CounterGrows(requests: seq<Request>, i: nat, j: nat)
    requires i < j <= |requests|
    requires BelowLast(requests, requests[i].key)
    ensures var key := requests[i].key;
            key in CountersAfter(requests[..j])
            && NonceOf(requests, i) <= CountersAfter(requests[..j])[key] < UINT64_LIMIT - 1
  {
    var before := requests[..j - 1];
    assert requests[..j][..j - 1] == before && requests[..j][j - 1] == requests[j - 1];
    assert requests[j - 1].key == requests[i].key ==> NonceOf(requests, j - 1) < UINT64_LIMIT - 1;
    if i < j - 1 {
      CounterGrows(requests, i, j - 1);
      NextIncreases(CountersAfter(before), requests[i].key, requests[j - 1].chainPending);
    }
  }

  /** While a key stays below the last uint64 its nonces strictly increase, so none is
      handed out twice, whatever the other keys do. */
  lemma NoncesIncrease(requests: seq<Request>, i: nat, j: nat)
    requires i < j < |requests| && requests[i].key == requests[j].key
    requires BelowLast(requests, requests[i].key)
    ensures NonceOf(requests, i) < NonceOf(requests, j)
  {
    CounterGrows(requests, i, j);
    NextIncreases(CountersAfter(requests[..j]), requests[j].key, requests[j].chainPending);
  }
}

/** The chain nonce reservation of the Postgres store: a table whose primary key is
    (wallet, network, nonce), read with a max query under an advisory lock. */
module NonceTable {
  import opened Wrappers
  import opened NonceCounter

  const BIGINT_LIMIT := 0x8000_0000_0000_0000

  datatype Status = Reserved | Submitted | Failed

  datatype RowKey = RowKey(wallet: string, network: string, nonce: nat)

  type Table = map<RowKey, Status>

  function LiveNonces(rows: Table, wallet: string, network: string): set<nat> {
    set r | r in rows && r.wallet == wallet && r.network == network && rows[r] != Failed :: r.nonce
  }

  lemma {:induction false} MaxExists(s: set<nat>)
    requires s != {}
    ensures exists m :: m in s && forall x :: x in s ==> x <= m
  {
    var x :| x in s;
    var rest := s - {x};
    if rest == {} {
      assert s == {x};
    } else {
      MaxExists(rest);
      var m :| m in rest && forall y :: y in rest ==> y <= m;
      var big := if x > m then x else m;
      forall y | y in s
        ensures y <= big
      {
        assert y == x || y in rest;
      }
      assert big in s;
    }
  }

  function MaxOf(s: set<nat>): (m: nat)
    requires s != {}
    ensures m in s && forall x :: x in s ==> x <= m
  {
    MaxExists(s);
    var m :| m in s && forall x :: x in s ==> x <= m;
    m
  }

  /** The nonce a reservation tries to insert. */
  function NextFree(rows: Table, wallet: string, network: string, chainPending: nat): nat {
    var live := LiveNonces(rows, wallet, network);
    if live != {} && MaxOf(live) + 1 > chainPending then MaxOf(live) + 1 else chainPending
  }

  /** The reservation: the insert fails on a taken primary key and beyond BIGINT. */
  function Reserve(rows: Table, wallet: string, network: string, chainPending: nat): Result<nat> {
    var next := NextFree(rows, wallet, network, chainPending);
    if next >= BIGINT_LIMIT then Err("nonce out of range")
    else if RowKey(wallet, network, next) in rows then Err("duplicate key")
    else Ok(next)
  }

  datatype Operation =
    | ReserveNonce(wallet: string, network: string, chainPending: uint64)
    | MarkSubmitted(wallet: string, network: string, nonce: nat)
    | MarkFailed(wallet: string, network: string, nonce: nat)
    | StorageFault

  function Mark(rows: Table, key: RowKey, status: Status): Table {
    if key in rows then rows[key := status] else rows
  }

  function Apply(rows: Table, op: Operation): Table {
    match op
    case ReserveNonce(w, n, pending) =>
      var r := Reserve(rows, w, n, pending);
      if r.Ok? then rows[RowKey(w, n, r.value) := Reserved] else rows
    case MarkSubmitted(w, n, nonce) => Mark(rows, RowKey(w, n, nonce), Submitted)
    case MarkFailed(w, n, nonce) => Mark(rows, RowKey(w, n, nonce), Failed)
    case StorageFault => rows
  }

  function RowsAfter(ops: seq<Operation>): Table {
    if ops == [] then map[]
    else Apply(RowsAfter(ops[..|ops| - 1]), ops[|ops| - 1])
  }

  /** The nonce the i-th operation returns, if it is a reservation that succeeds. */
  function Granted(ops: seq<Operation>, i: nat): Option<nat>
    requires i < |ops|
  {
    if !ops[i].ReserveNonce? then None
    else
      var r := Reserve(RowsAfter(ops[..i]), ops[i].wallet, ops[i].network, ops[i].chainPending);
      if r.Ok? then Some(r.value) else None
  }

  lemma {:induction false} RowsStay(ops: seq<Operation>, i: nat, j: nat)
    requires i <= j <= |ops|
    ensures RowsAfter(ops[..i]).Keys <= RowsAfter(ops[..j]).Keys
  {
    if i < j {
      RowsStay(ops, i, j - 1);
      assert ops[..j][..j - 1] == ops[..j - 1] && ops[..j][j - 1] == ops[j - 1];
    }
  }

  /** Main result: over any run of reservations, marks and faults, no nonce of a wallet and
      network is granted twice. */
  lemma GrantsDistinct(ops: seq<Operation>, i: nat, j: nat)
    requires i < j < |ops| && Granted(ops, i).Some? && Granted(ops, j).Some?
    requires ops[i].wallet == ops[j].wallet && ops[i].network == ops[j].network
    ensures Granted(ops, i) != Granted(ops, j)
  {
    RowsStay(ops, i + 1, j);
    assert ops[..i + 1][..i] == ops[..i] && ops[..i + 1][i] == ops[i];
    assert RowKey(ops[i].wallet, ops[i].network, Granted(ops, i).value) in RowsAfter(ops[..i + 1]);
  }

  /** A granted nonce is at least what the chain reports and above every live nonce. */
  lemma GrantAboveLive(rows: Table, wallet: string, network: string, chainPending: nat, x: nat)
    requires Reserve(rows, wallet, network, chainPending).Ok?
    requires x in LiveNonces(rows, wallet, network)
    ensures chainPending <= Reserve(rows, wallet, network, chainPending).value
    ensures x < Reserve(rows, wallet, network, chainPending).value
  {
  }

  /** Storage faults aside, a reservation is refused exactly when the nonce it needs is
      beyond BIGINT or is the nonce of a failed row, which keeps its primary key. */
  lemma RefusedIffFailedRow(rows: Table, wallet: string, network: string, chainPending: nat)
    ensures var next := NextFree(rows, wallet, network, chainPending);
            var key := RowKey(wallet, network, next);
            Reserve(rows, wallet, network, chainPending).Err?
            <==> next >= BIGINT_LIMIT || (key in rows && rows[key] == Failed)
  {
    var next := NextFree(rows, wallet, network, chainPending);
    var key := RowKey(wallet, network, next);
    if key in rows {
      assert rows[key] == Failed || next in LiveNonces(rows, wallet, network);
    }
  }

  /** The row is of this wallet and network, and not failed. */
  predicate Live(rows: Table, r: RowKey, wallet: string, network: string) {
    r in rows && r.wallet == wallet && r.network == network && (rows[r] == Reserved || rows[r] == Submitted)
  }

  /** The nonce a reservation needs, told by the rows: what the chain reports if that is above
      every live row, and else the one after the last of them. */
  lemma NextFreeIff(rows: Table, wallet: string, network: string, chainPending: nat, nonce: nat)
    ensures NextFree(rows, wallet, network, chainPending) == nonce
       <==> && (forall r :: Live(rows, r, wallet, network) ==> r.nonce < nonce) && chainPending <= nonce
            && (nonce == chainPending || exists r :: Live(rows, r, wallet, network) && r.nonce + 1 == nonce)
  {
    var live := LiveNonces(rows, wallet, network);
    assert forall r :: Live(rows, r, wallet, network) ==> r.nonce in live;
    assert forall x :: x in live ==> Live(rows, RowKey(wallet, network, x), wallet, network);
  }

  /** A nonce that is granted and then marked failed blocks its wallet and network: the same
      reservation needs it again, and is refused. */
  lemma FailedNonceBlocks(rows: Table, wallet: string, network: string, chainPending: uint64)
    requires Reserve(rows, wallet, network, chainPending).Ok?
    ensures var nonce := Reserve(rows, wallet, network, chainPending).value;
            var failed := Apply(Apply(rows, ReserveNonce(wallet, network, chainPending)),
                                MarkFailed(wallet, network, nonce));
            Reserve(failed, wallet, network, chainPending).Err?
  {
    var nonce := Reserve(rows, wallet, network, chainPending).value;
    var failed := Apply(Apply(rows, ReserveNonce(wallet, network, chainPending)), MarkFailed(wallet, network, nonce));
    NextFreeIff(rows, wallet, network, chainPending, nonce);
    assert forall r :: Live(failed, r, wallet, network) <==> Live(rows, r, wallet, network);
    hide NextFree, Live;
    NextFreeIff(failed, wallet, network, chainPending, nonce);
  }

  /** Marked submitted, it is followed by the next one, unless that is beyond BIGINT or the
      nonce of a failed row. */
  lemma SubmittedNonceFollowed(rows: Table, wallet: string, network: string, chainPending: uint64)
    requires Reserve(rows, wallet, network, chainPending).Ok?
    ensures var nonce := Reserve(rows, wallet, network, chainPending).value;
            var submitted := Apply(Apply(rows, ReserveNonce(wallet, network, chainPending)),
                                   MarkSubmitted(wallet, network, nonce));
            nonce + 1 < BIGINT_LIMIT && RowKey(wallet, network, nonce + 1) !in rows ==>
              Reserve(submitted, wallet, network, chainPending) == Ok(nonce + 1)
  {
    var nonce := Reserve(rows, wallet, network, chainPending).value;
    var submitted := Apply(Apply(rows, ReserveNonce(wallet, network, chainPending)),
                           MarkSubmitted(wallet, network, nonce));
    NextFreeIff(rows, wallet, network, chainPending, nonce);
    assert forall r :: Live(submitted, r, wallet, network) ==>
        Live(rows, r, wallet, network) || r == RowKey(wallet, network, nonce);
    assert Live(submitted, RowKey(wallet, network, nonce), wallet, network);
    hide NextFree, Live;
    NextFreeIff(submitted, wallet, network, chainPending, nonce + 1);
  }

  /** Marking changes the row of that nonce, if there is one, and nothing else. */
  lemma MarkChangesOne(rows: Table, wallet: string, network: string, nonce: nat)
    ensures var key := RowKey(wallet, network, nonce);
            var failed, submitted := Apply(rows, MarkFailed(wallet, network, nonce)),
                                     Apply(rows, MarkSubmitted(wallet, network, nonce));
            && failed.Keys == submitted.Keys == rows.Keys
            && (key in rows ==> failed[key] == Failed && submitted[key] == Submitted)
            && forall r :: r in rows && r != key ==> failed[r] == submitted[r] == rows[r]
  {
  }

  // ---- the table refines the counter --------------------------------------------------

  /** The same reservations, as requests to the memory store. */
  function Requests(ops: seq<Operation>): seq<Request> {
    if ops == [] then []
    else
      var op := ops[|ops| - 1];
      Requests(ops[..|ops| - 1])
      + if op.ReserveNonce? then [Request(CounterKey(op.wallet, op.network), op.chainPending)] else []
  }

  /** What the memory store answers to the i-th operation after the same run. */
  function MemoryNonce(ops: seq<Operation>, i: nat): uint64
    requires i < |ops| && ops[i].ReserveNonce?
  {
    Next(CountersAfter(Requests(ops[..i])), CounterKey(ops[i].wallet, ops[i].network), ops[i].chainPending)
  }

  /** Runs the refinement covers: nothing fails, wallets hold no bar, nonces fit BIGINT. */
  predicate Plain(ops: seq<Operation>) {
    forall i :: 0 <= i < |ops| ==>
      (ops[i].ReserveNonce? || ops[i].MarkSubmitted?)
      && (ops[i].ReserveNonce? ==> '|' !in ops[i].wallet && MemoryNonce(ops, i) < BIGINT_LIMIT)
  }

  /** The counter of every wallet and network is the greatest nonce in its rows. */
  ghost predicate InStep(rows: Table, counters: map<string, uint64>) {
    (forall r :: r in rows ==> rows[r] != Failed)
    && forall w, n :: PairInStep(rows, counters, w, n)
  }

  predicate PairInStep(rows: Table, counters: map<string, uint64>, w: string, n: string) {
    var live, key := LiveNonces(rows, w, n), CounterKey(w, n);
    '|' !in w ==>
      (key in counters <==> live != {})
      && (live != {} ==> counters[key] == MaxOf(live) && counters[key] < BIGINT_LIMIT)
  }

  lemma PlainPrefix(ops: seq<Operation>, n: nat)
    requires Plain(ops) && n <= |ops|
    ensures Plain(ops[..n])
  {
    forall i | 0 <= i < n && ops[i].ReserveNonce?
      ensures MemoryNonce(ops[..n], i) == MemoryNonce(ops, i)
    {
      assert ops[..n][..i] == ops[..i];
    }
  }

  /** In step, a reservation gives the counter's answer. */
  lemma SameAnswer(rows: Table, counters: map<string, uint64>, w: string, n: string, pending: uint64)
    requires InStep(rows, counters) && '|' !in w
    requires Next(counters, CounterKey(w, n), pending) < BIGINT_LIMIT
    ensures Reserve(rows, w, n, pending) == Ok(Next(counters, CounterKey(w, n), pending))
  {
    assert PairInStep(rows, counters, w, n);
    RefusedIffFailedRow(rows, w, n, pending);
  }

  lemma ReserveKeepsInStep(rows: Table, counters: map<string, uint64>, w: string, n: string, pending: uint64)
    requires InStep(rows, counters) && '|' !in w
    requires Next(counters, CounterKey(w, n), pending) < BIGINT_LIMIT
    ensures var next := Next(counters, CounterKey(w, n), pending);
            InStep(rows[RowKey(w, n, next) := Reserved], counters[CounterKey(w, n) := next])
  {
    SameAnswer(rows, counters, w, n, pending);
    var next := Next(counters, CounterKey(w, n), pending);
    var rows' := rows[RowKey(w, n, next) := Reserved];
    var counters' := counters[CounterKey(w, n) := next];
    forall w', n'
      ensures PairInStep(rows', counters', w', n')
    {
      assert PairInStep(rows, counters, w', n');
      if '|' !in w' {
        CounterKeyInjective(w, n, w', n');
      }
      var live := LiveNonces(rows, w', n');
      if w' == w && n' == n {
        assert LiveNonces(rows', w', n') == live + {next} by {
          assert RowKey(w, n, next) in rows';
          forall x | x in live + {next}
            ensures x in LiveNonces(rows', w', n')
          {
            assert RowKey(w, n, x) in rows';
          }
        }
      } else {
        SameLive(rows, rows', w', n');
      }
    }
  }

  lemma SameLive(rows: Table, rows': Table, w: string, n: string)
    requires forall x: nat :: RowKey(w, n, x) in rows <==> RowKey(w, n, x) in rows'
    requires forall x: nat :: RowKey(w, n, x) in rows ==>
               (rows[RowKey(w, n, x)] == Failed <==> rows'[RowKey(w, n, x)] == Failed)
    ensures LiveNonces(rows, w, n) == LiveNonces(rows', w, n)
  {
    forall x | x in LiveNonces(rows, w, n)
      ensures x in LiveNonces(rows', w, n)
    {
      assert RowKey(w, n, x) in rows';
    }
    forall x | x in LiveNonces(rows', w, n)
      ensures x in LiveNonces(rows, w, n)
    {
      assert RowKey(w, n, x) in rows;
    }
  }

  lemma SubmitKeepsInStep(rows: Table, counters: map<string, uint64>, key: RowKey)
    requires InStep(rows, counters)
    ensures InStep(Mark(rows, key, Submitted), counters)
  {
    var rows' := Mark(rows, key, Submitted);
    forall w, n
      ensures PairInStep(rows', counters, w, n)
    {
      assert PairInStep(rows, counters, w, n);
      SameLive(rows, rows', w, n);
    }
  }

  lemma {:induction false} StaysInStep(ops: seq<Operation>)
    requires Plain(ops)
    ensures InStep(RowsAfter(ops), CountersAfter(Requests(ops)))
  {
    if ops != [] {
      var m := |ops| - 1;
      var before, op := ops[..m], ops[m];
      PlainPrefix(ops, m);
      StaysInStep(before);
      var rows, counters := RowsAfter(before), CountersAfter(Requests(before));
      match op {
        case ReserveNonce(w, n, pending) =>
          assert MemoryNonce(ops, m) == Next(counters, CounterKey(w, n), pending);
          SameAnswer(rows, counters, w, n, pending);
          ReserveKeepsInStep(rows, counters, w, n, pending);
          var r := Request(CounterKey(w, n), pending);
          assert (Requests(before) + [r])[..|Requests(before)|] == Requests(before);
        case MarkSubmitted(w, n, nonce) =>
          SubmitKeepsInStep(rows, counters, RowKey(w, n, nonce));
          assert Requests(ops) == Requests(before);
      }
    }
  }

  /** Main result: while nothing is marked failed, the table with its max query never
      refuses and grants exactly the nonces the memory counter would. */
  lemma TableRefinesCounter(ops: seq<Operation>, i: nat)
    requires Plain(ops) && i < |ops| && ops[i].ReserveNonce?
    ensures Granted(ops, i) == Some(MemoryNonce(ops, i))
  {
    PlainPrefix(ops, i);
    StaysInStep(ops[..i]);
    SameAnswer(RowsAfter(ops[..i]), CountersAfter(Requests(ops[..i])), ops[i].wallet, ops[i].network,
               ops[i].chainPending);
  }
}

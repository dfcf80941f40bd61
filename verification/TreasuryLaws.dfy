/** What the pieces of Treasury amount to, in plain terms: which rows count, which requests
    the limits let through, what a receipt does. */
module TreasuryLaws {
  import opened Amounts
  import opened Floats
  import opened Text
  import opened Totals
  import opened Treasury
  import opened Wrappers

  /** The row counts for the account: same token text and network, submitted or confirmed. */
  predicate CountsFor(row: Row, account: Account) {
    row.account.token == account.token && row.account.network == account.network
    && (row.status.Submitted? || row.status.Confirmed?)
  }

  /** What a row adds, given whether it counts. */
  function Worth(parse: Parser, row: Row, counts: bool): Float {
    if counts && parse(row.amount).Some? then parse(row.amount).value else ZERO
  }

  /** Row by row, the outflow adds what a counting row reads as: for a check, of all days in
      the memory store and since today in Postgres; for a daily limit, of that day. A text
      that cannot be read adds nothing. */
  lemma OutflowGrows(backend: Backend, parse: Parser, rows: Rows, hash: string, row: Row, account: Account, day: int)
    requires hash !in rows
    ensures Outflow(parse, map[], account, Queried(backend, day)) == ZERO
    ensures Outflow(parse, rows[hash := row], account, Queried(backend, day))
         == Add(Worth(parse, row, CountsFor(row, account) && (backend.Memory? || row.day >= day)),
                Outflow(parse, rows, account, Queried(backend, day)))
    ensures Outflow(parse, map[], account, OneDay(backend, day)) == ZERO
    ensures Outflow(parse, rows[hash := row], account, OneDay(backend, day))
         == Add(Worth(parse, row, CountsFor(row, account) && (backend.Memory? || row.day == day)),
                Outflow(parse, rows, account, OneDay(backend, day)))
  {
    PartIsWorth(backend, parse, row, account, day);
    hide *;
    OutflowAdds(parse, rows, hash, row, account, Queried(backend, day));
    OutflowAdds(parse, rows, hash, row, account, OneDay(backend, day));
  }

  lemma PartIsWorth(backend: Backend, parse: Parser, row: Row, account: Account, day: int)
    ensures Part(parse, row, account, Queried(backend, day))
         == Worth(parse, row, CountsFor(row, account) && (backend.Memory? || row.day >= day))
    ensures Part(parse, row, account, OneDay(backend, day))
         == Worth(parse, row, CountsFor(row, account) && (backend.Memory? || row.day == day))
  {
  }

  lemma OutflowAdds(parse: Parser, rows: Rows, hash: string, row: Row, account: Account, window: Window)
    requires hash !in rows
    ensures Outflow(parse, map[], account, window) == ZERO
    ensures Outflow(parse, rows[hash := row], account, window)
         == Add(Part(parse, row, account, window), Outflow(parse, rows, account, window))
  {
    hide Part, Add;
    var parts, more := Parts(parse, rows, account, window), rows[hash := row];
    assert Parts(parse, more, account, window) == parts[hash := Part(parse, row, account, window)];
    TotalAdd(parts, hash, Part(parse, row, account, window));
    assert Parts(parse, map[], account, window) == map[];
    TotalEnds(ZERO);
  }

  /** On top of a finite outflow an amount that reads as a number passes if and only if it is
      positive and no limit, where there is one, is exceeded by the sum; an infinite one only
      without a limit, and NaN always. */
  lemma AcceptedIff(parse: Parser, limits: Limits, req: Request, outflow: real, amount: Float)
    requires !AllSpaces(req.amount) && parse(TrimSpace(req.amount)) == Some(amount)
    ensures TreasuryError(parse, limits, req, Finite(outflow)).None?
       <==> match amount
            case Finite(x) =>
              x > 0.0 && (limits.lockThreshold > 0.0 ==> outflow + x <= limits.lockThreshold)
              && (limits.maxDailyOut > 0.0 ==> outflow + x <= limits.maxDailyOut)
            case PosInf => limits.lockThreshold <= 0.0 && limits.maxDailyOut <= 0.0
            case NegInf => false
            case NaN => true
  {
    BlankIff(req.amount);
    hide TrimSpace;
  }

  /** The limit on the total is looked at first, then the daily one. */
  lemma WhichLimit(parse: Parser, limits: Limits, req: Request, outflow: real, x: real)
    requires !AllSpaces(req.amount) && parse(TrimSpace(req.amount)) == Some(Finite(x)) && x > 0.0
    ensures TreasuryError(parse, limits, req, Finite(outflow)) == Some("treasury lockdown")
       <==> 0.0 < limits.lockThreshold < outflow + x
    ensures TreasuryError(parse, limits, req, Finite(outflow)) == Some("limite diario de treasury excedido")
       <==> !(0.0 < limits.lockThreshold < outflow + x) && 0.0 < limits.maxDailyOut < outflow + x
  {
    BlankIff(req.amount);
    hide TrimSpace;
  }

  /** A text that cannot be read is refused; so is a blank one, but for a contract call,
      which then passes and is recorded as "0". */
  lemma UnreadableRefused(parse: Parser, limits: Limits, req: Request, outflow: Float)
    requires AllSpaces(req.amount) || parse(TrimSpace(req.amount)).None?
    ensures TreasuryError(parse, limits, req, outflow).None? <==> req.ContractCall? && AllSpaces(req.amount)
    ensures RecordedAmount(req) == if req.ContractCall? && AllSpaces(req.amount) then "0" else req.amount
  {
    BlankIff(req.amount);
    hide TrimSpace, Add;
  }

  /** Over every run: a request with a new hash that the check lets through and that can be
      signed leaves one row if it is recorded, submitted if it was broadcast and failed if not,
      and counts as sent exactly if it was broadcast; one the check refuses leaves nothing. */
  lemma SendDecides(cfg: Setting, steps: seq<Step>, send: Step)
    requires send.Send? && send.checkDay <= send.createDay && (send.recorded || cfg.backend.Postgres?)
    requires send.hash !in Run(cfg, steps).rows && send.hash !in Run(cfg, steps).sent
    requires send.req.Transfer? ==> Units(send.req.amount, cfg.decimals(send.req.token)).Ok?
    ensures var s, t := Run(cfg, steps), Run(cfg, steps + [send]);
            var out := Outflow(cfg.parse, s.rows, AccountOf(send.req),
                               if cfg.backend.Memory? then AllDays else Since(send.checkDay));
            if TreasuryError(cfg.parse, cfg.limits, send.req, out).Some? then t == s
            else
              && t.pending == s.pending
              && t.sent == (if send.broadcast then s.sent[send.hash := Sent(send.req, send.createDay)] else s.sent)
              && (!send.recorded ==> t.rows == s.rows)
              && (send.recorded ==>
                    && t.rows.Keys == s.rows.Keys + {send.hash} && (forall h :: h in s.rows ==> t.rows[h] == s.rows[h])
                    && t.rows[send.hash].status == (if send.broadcast then Submitted else Failed)
                    && t.rows[send.hash].day == send.createDay
                    && t.rows[send.hash].account.network == send.req.network
                    && t.rows[send.hash].account.token
                       == (if send.req.Transfer? then send.req.token else TrimSpace(send.req.token))
                    && t.rows[send.hash].amount
                       == (if send.req.ContractCall? && AllSpaces(send.req.amount) then "0" else send.req.amount))
  {
    assert (steps + [send])[..|steps|] == steps;
    BlankIff(send.req.amount);
    hide TreasuryError, Outflow, TrimSpace, Units;
  }

  /** Over every run: a receipt closes the listed row that is next, as confirmed if it tells
      success and as reverted if it tells failure, and touches no other; a success leaves
      every outflow as it was, and a failure takes exactly that row's part off. */
  lemma MarkDecides(cfg: Setting, steps: seq<Step>, receipt: Option<bool>, account: Account, window: Window)
    requires PlainParser(cfg.parse) && Run(cfg, steps).pending != []
    ensures var s, t := Run(cfg, steps), Run(cfg, steps + [Mark(receipt)]);
            var hash := s.pending[0];
            && hash in s.rows && s.rows[hash].status.Submitted?
            && t.pending == s.pending[1..] && t.sent == s.sent && t.rows.Keys == s.rows.Keys
            && (receipt == Some(true) ==> t.rows[hash] == s.rows[hash].(status := Confirmed))
            && (receipt == Some(false) ==> t.rows[hash] == s.rows[hash].(status := Reverted))
            && (receipt == None ==> t.rows[hash] == s.rows[hash])
            && (forall h :: h in s.rows && h != hash ==> t.rows[h] == s.rows[h])
            && (receipt != Some(false) ==>
                  Outflow(cfg.parse, t.rows, account, window) == Outflow(cfg.parse, s.rows, account, window))
            && (receipt == Some(false) ==>
                  Outflow(cfg.parse, s.rows, account, window)
                  == Add(Part(cfg.parse, s.rows[hash], account, window), Outflow(cfg.parse, t.rows, account, window)))
  {
    var s, t, hash := Run(cfg, steps), Run(cfg, steps + [Mark(receipt)]), Run(cfg, steps).pending[0];
    assert (steps + [Mark(receipt)])[..|steps|] == steps;
    RunKeepsInvariant(cfg, steps);
    assert hash in s.pending;
    assert t == Apply(cfg, s, Mark(receipt));
    hide Run, PlainParser, Outflow, Part, Add, AtMost, CleanIsBounded, RowsAreSent, AllPassed, Distinct;
    if receipt.Some? {
      MarkNeverRaises(cfg.parse, s.rows, hash, if receipt.value then Confirmed else Reverted, account, window);
    }
  }
}

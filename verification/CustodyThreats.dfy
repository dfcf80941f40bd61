/** What custody_guard.go locks for, told by the transaction, the guard's lists and the
    answers of the RPCs alone. */
module CustodyThreats {
  import opened Calldata
  import opened CustodySpec
  import opened Wrappers

  /** A set-code transaction is authorized by a protected wallet. */
  predicate ByProtected(rules: Rules, tx: Transaction, auth: Authorization) {
    tx.setCode && exists w :: w in rules.protected && auth.authority == Some(w)
  }

  /** These are the first four bytes of the calldata, with zeros where it is shorter. */
  predicate IsSelector(selector: seq<byte>, data: seq<byte>) {
    |selector| == 4 && forall i :: 0 <= i < 4 ==> selector[i] == if i < |data| then data[i] else 0
  }

  /** There is a list of allowed selectors, and this calldata's is not on it. */
  predicate SelectorDisallowed(rules: Rules, tx: Transaction) {
    rules.allowedSelectors != {} && forall s :: s in rules.allowedSelectors ==> !IsSelector(s, tx.data)
  }

  predicate DelegateUntrusted(rules: Rules, auth: Authorization) {
    auth.delegate !in rules.trusted
  }

  /** A trusted delegate's code hash was read, and the first RPC to answer tells another one,
      or none answers. */
  ghost predicate HashNotTold(rules: Rules, auth: Authorization) {
    auth.delegate in rules.trusted && rules.trusted[auth.delegate] != ""
    && !exists k: nat :: FirstAnswer(auth.answers, k, rules.trusted[auth.delegate])
  }

  ghost predicate Threat(rules: Rules, tx: Transaction, auth: Authorization) {
    ByProtected(rules, tx, auth)
    && (SelectorDisallowed(rules, tx) || DelegateUntrusted(rules, auth) || HashNotTold(rules, auth))
  }

  ghost predicate ThreatAt(rules: Rules, txs: seq<Transaction>, i: nat, j: nat) {
    i < |txs| && j < |txs[i].authorizations| && Threat(rules, txs[i], txs[i].authorizations[j])
  }

  /** Some authorization of the block is a threat. */
  ghost predicate Threatened(rules: Rules, txs: seq<Transaction>) {
    exists i: nat, j: nat :: ThreatAt(rules, txs, i, j)
  }

  predicate EndsIn(text: string, tail: string) {
    |tail| <= |text| && text[|text| - |tail|..] == tail
  }

  /** The text names the first of the three that holds of the authorization, and what is to
      blame. */
  predicate Tells(rules: Rules, tx: Transaction, auth: Authorization, text: string) {
    if SelectorDisallowed(rules, tx) then "EIP-7702 selector nao permitido" <= text && EndsIn(text, tx.hash)
    else if DelegateUntrusted(rules, auth) then "EIP-7702 delegate desconhecido" <= text && EndsIn(text, tx.hash)
    else "EIP-7702 delegate hash alterado" <= text && EndsIn(text, auth.delegate)
  }

  /** The text is about the first threat of the block, in block order. */
  ghost predicate TellsFirst(rules: Rules, txs: seq<Transaction>, text: string) {
    exists i: nat, j: nat ::
      ThreatAt(rules, txs, i, j) && Tells(rules, txs[i], txs[i].authorizations[j], text)
      && forall k: nat, l: nat :: (k < i || (k == i && l < j)) ==> !ThreatAt(rules, txs, k, l)
  }

  lemma SelectorIs(data: seq<byte>, selector: seq<byte>)
    ensures IsSelector(selector, data) <==> selector == CalldataSelector(data)
  {
    assert |CalldataSelector(data)| == 4;
    assert forall i :: 0 <= i < 4 ==> CalldataSelector(data)[i] == if i < |data| then data[i] else 0;
  }

  lemma DisallowedIff(rules: Rules, tx: Transaction)
    ensures SelectorDisallowed(rules, tx)
       <==> rules.allowedSelectors != {} && CalldataSelector(tx.data) !in rules.allowedSelectors
  {
    forall s | s in rules.allowedSelectors
      ensures IsSelector(s, tx.data) <==> s == CalldataSelector(tx.data)
    {
      SelectorIs(tx.data, s);
    }
  }

  /** An authorization is a risk exactly when it is a threat, and of the kind that holds first. */
  lemma RiskIff(rules: Rules, tx: Transaction, auth: Authorization)
    ensures RiskOf(rules, tx, auth).Some? <==> Threat(rules, tx, auth)
    ensures RiskOf(rules, tx, auth) == Some(UnknownSelector)
       <==> ByProtected(rules, tx, auth) && SelectorDisallowed(rules, tx)
    ensures RiskOf(rules, tx, auth) == Some(UnknownDelegate)
       <==> ByProtected(rules, tx, auth) && !SelectorDisallowed(rules, tx) && DelegateUntrusted(rules, auth)
    ensures RiskOf(rules, tx, auth) == Some(CodeUnverified)
       <==> ByProtected(rules, tx, auth) && !SelectorDisallowed(rules, tx) && HashNotTold(rules, auth)
            && forall k :: 0 <= k < |auth.answers| ==> auth.answers[k].None?
  {
    DisallowedIff(rules, tx);
    hide CalldataSelector, SelectorDisallowed, Observed, FirstAnswer;
    if auth.delegate in rules.trusted {
      ObservedIff(auth.answers, rules.trusted[auth.delegate]);
    }
  }

  lemma StartsAndEnds(prefix: string, head: string, tail: string)
    requires prefix <= head
    ensures prefix <= head + tail && EndsIn(head + tail, tail)
  {
  }

  lemma SelectorReads(source: string, tx: Transaction, auth: Authorization)
    ensures "EIP-7702 selector nao permitido" <= ReasonOf(source, tx, auth, UnknownSelector)
            && EndsIn(ReasonOf(source, tx, auth, UnknownSelector), tx.hash)
  {
    var prefix, head := "EIP-7702 selector nao permitido", "EIP-7702 selector nao permitido source=";
    assert prefix <= head;
    hide EndsIn;
    StartsAndEnds(prefix, head, source);
    StartsAndEnds(prefix, head + source, " tx=");
    StartsAndEnds(prefix, head + source + " tx=", tx.hash);
  }

  lemma DelegateReads(source: string, tx: Transaction, auth: Authorization)
    ensures "EIP-7702 delegate desconhecido" <= ReasonOf(source, tx, auth, UnknownDelegate)
            && EndsIn(ReasonOf(source, tx, auth, UnknownDelegate), tx.hash)
  {
    var prefix, head := "EIP-7702 delegate desconhecido", "EIP-7702 delegate desconhecido source=";
    var wallet := if auth.authority.Some? then auth.authority.value else "";
    assert prefix <= head;
    hide EndsIn;
    StartsAndEnds(prefix, head, source);
    StartsAndEnds(prefix, head + source, " wallet=");
    StartsAndEnds(prefix, head + source + " wallet=", wallet);
    StartsAndEnds(prefix, head + source + " wallet=" + wallet, " delegate=");
    StartsAndEnds(prefix, head + source + " wallet=" + wallet + " delegate=", auth.delegate);
    StartsAndEnds(prefix, head + source + " wallet=" + wallet + " delegate=" + auth.delegate, " tx=");
    StartsAndEnds(prefix, head + source + " wallet=" + wallet + " delegate=" + auth.delegate + " tx=", tx.hash);
  }

  lemma CodeReads(source: string, tx: Transaction, auth: Authorization, risk: Risk)
    requires risk.CodeChanged? || risk.CodeUnverified?
    ensures "EIP-7702 delegate hash alterado" <= ReasonOf(source, tx, auth, risk)
            && EndsIn(ReasonOf(source, tx, auth, risk), auth.delegate)
  {
    var prefix, head := "EIP-7702 delegate hash alterado", CHANGED;
    assert prefix <= head;
    StartsAndEnds(prefix, head, auth.delegate);
    StartsAndEnds(prefix, head, NO_RPC);
    StartsAndEnds(prefix, head + NO_RPC, auth.delegate);
    hide EndsIn;
    Regroup(head, NO_RPC, auth.delegate);
  }

  lemma Regroup(a: string, b: string, c: string)
    ensures a + (b + c) == a + b + c
  {
  }

  lemma ReasonTells(rules: Rules, source: string, tx: Transaction, auth: Authorization)
    requires RiskOf(rules, tx, auth).Some?
    ensures Tells(rules, tx, auth, ReasonOf(source, tx, auth, RiskOf(rules, tx, auth).value))
  {
    RiskIff(rules, tx, auth);
    var risk := RiskOf(rules, tx, auth).value;
    assert risk.UnknownSelector? || risk.UnknownDelegate? || risk.CodeChanged? || risk.CodeUnverified?;
    hide RiskOf, SelectorDisallowed, DelegateUntrusted, HashNotTold, ByProtected, EndsIn, ReasonOf;
    if risk.UnknownSelector? {
      SelectorReads(source, tx, auth);
    } else if risk.UnknownDelegate? {
      DelegateReads(source, tx, auth);
    } else {
      CodeReads(source, tx, auth, risk);
    }
  }

  /** A block holds a risk exactly when it holds a threat; what the guard reports is about the
      first one. */
  lemma AnyRiskIff(rules: Rules, source: string, txs: seq<Transaction>)
    ensures AnyRisk(rules, txs) <==> Threatened(rules, txs)
    ensures forall text :: ReportsFirst(rules, source, txs, text) ==> TellsFirst(rules, txs, text)
  {
    hide RiskOf, Threat, Tells, ReasonOf;
    forall i: nat, j: nat
      ensures Risky(rules, txs, i, j) <==> ThreatAt(rules, txs, i, j)
    {
      if i < |txs| && j < |txs[i].authorizations| {
        RiskIff(rules, txs[i], txs[i].authorizations[j]);
      }
    }
    forall text | ReportsFirst(rules, source, txs, text)
      ensures TellsFirst(rules, txs, text)
    {
      var i: nat, j: nat :| FirstRisk(rules, txs, i, j)
        && text == ReasonOf(source, txs[i], txs[i].authorizations[j],
                            RiskOf(rules, txs[i], txs[i].authorizations[j]).value);
      ReasonTells(rules, source, txs[i], txs[i].authorizations[j]);
    }
  }

  /** A block that no protected wallet authorized anything in is no threat. */
  lemma UnprotectedIsSafe(rules: Rules, txs: seq<Transaction>)
    requires forall i, j :: 0 <= i < |txs| && 0 <= j < |txs[i].authorizations| ==>
               !ByProtected(rules, txs[i], txs[i].authorizations[j])
    ensures !AnyRisk(rules, txs)
  {
    AnyRiskIff(rules, "", txs);
    hide ByProtected;
  }
}

/** Exactly which requests the policy of policy.go lets through, in terms of the texts of a
    request and the lists of the configuration alone. */
module PolicyLaws {
  import opened Floats
  import opened Policy
  import opened Text
  import opened Wrappers

  predicate HexDigits(s: string) {
    forall i :: 0 <= i < |s| ==> '0' <= s[i] <= '9' || 'a' <= s[i] <= 'f' || 'A' <= s[i] <= 'F'
  }

  /** Forty hexadecimal digits, with or without 0x or 0X before them. */
  lemma HexAddressIff(s: string)
    ensures IsHexAddress(s)
       <==> (|s| == 40 && HexDigits(s))
            || (|s| == 42 && s[0] == '0' && (s[1] == 'x' || s[1] == 'X') && HexDigits(s[2..]))
  {
    assert |s| >= 2 ==> (s[1] in "xX" <==> s[1] == 'x' || s[1] == 'X');
    assert |s| == 40 && s[1] in "xX" ==> !HexDigits(s);
    HexBody(s);
    if |s| >= 2 {
      HexBody(s[2..]);
    }
    hide HexDigits, FortyHexDigits;
  }

  lemma HexBody(body: string)
    ensures FortyHexDigits(body) <==> |body| == 40 && HexDigits(body)
  {
    assert forall i :: 0 <= i < |body| ==>
        (IsHexDigit(body[i]) <==> '0' <= body[i] <= '9' || 'a' <= body[i] <= 'f' || 'A' <= body[i] <= 'F');
  }

  /** Equal but for the case of ASCII letters. */
  predicate SameLetters(s: string, t: string) {
    |s| == |t| && forall i :: 0 <= i < |s| ==>
      s[i] == t[i] || ('a' <= s[i] <= 'z' && s[i] as int - t[i] as int == 32)
      || ('a' <= t[i] <= 'z' && t[i] as int - s[i] as int == 32)
  }

  /** Two texts are the same in upper case exactly when they differ in case only. */
  lemma ToUpperIff(s: string, t: string)
    ensures ToUpper(s) == ToUpper(t) <==> SameLetters(s, t)
  {
    if SameLetters(s, t) {
      assert forall i :: 0 <= i < |s| ==> ToUpper(s)[i] == ToUpper(t)[i];
    }
    if ToUpper(s) == ToUpper(t) {
      assert |ToUpper(s)| == |s| && |ToUpper(t)| == |t|;
      forall i | 0 <= i < |s|
        ensures s[i] == t[i] || ('a' <= s[i] <= 'z' && s[i] as int - t[i] as int == 32)
                || ('a' <= t[i] <= 'z' && t[i] as int - s[i] as int == 32)
      {
        assert ToUpper(s)[i] == ToUpper(t)[i];
      }
    }
  }

  /** No letter of the result is a small one. */
  lemma ToUpperHasNoSmall(s: string)
    ensures |ToUpper(s)| == |s| && forall i :: 0 <= i < |s| ==> !('a' <= ToUpper(s)[i] <= 'z')
  {
  }

  /** The text is read, and as NaN, or as a positive number that a positive limit does not
      stop. */
  predicate AmountPasses(limit: real, amount: Option<Float>) {
    amount.Some?
    && match amount.value
       case Finite(x) => x > 0.0 && (limit > 0.0 ==> x <= limit)
       case PosInf => limit <= 0.0
       case NegInf => false
       case NaN => true
  }

  /** No token is named, or an address on the list, if there is one. */
  predicate TokenPasses(allowed: set<string>, token: string) {
    token == "" || (IsHexAddress(token) && (allowed == {} || ToUpper(token) in allowed))
  }

  /** A transfer is let through exactly when its network is BSC or EVM and on the list, its
      amount passes, its recipient is an address, and its token, which is the USDT contract
      if none is named, passes. */
  lemma TransferAcceptedIff(cfg: Config, req: TransferRequest, network: string, parseFloat: string -> Option<Float>)
    ensures TransferPolicyError(cfg, req, network, parseFloat).None?
       <==> && network in cfg.allowedNetworks && (network == "BSC" || network == "EVM")
            && AmountPasses(cfg.maxTransferAmount, parseFloat(TrimSpace(req.amount)))
            && IsHexAddress(req.to)
            && TokenPasses(cfg.allowedTokenContracts,
                           if AllSpaces(req.tokenContract) then cfg.bscUsdtContract else TrimSpace(req.tokenContract))
  {
    BlankIff(req.tokenContract);
    hide TrimSpace, IsHexAddress, ToUpper;
  }

  /** The data begins, after spaces and a 0x, with the selector of aggregate3 in either case. */
  predicate CallsAggregate3(data: string) {
    var trimmed := TrimSpace(data);
    var digits := if "0x" <= trimmed then trimmed[2..] else trimmed;
    |digits| >= 8 && SameLetters(digits[..8], "82ad56cb")
  }

  /** A contract call is let through exactly when its network is BSC or EVM and on the list,
      its target is an address, and on the list of targets if there is one, it calls
      aggregate3, its amount is blank or passes, and its token passes. */
  lemma ContractCallAcceptedIff(cfg: Config, req: ContractCallRequest, network: string,
                                parseFloat: string -> Option<Float>)
    ensures ContractCallPolicyError(cfg, req, network, parseFloat).None?
       <==> && network in cfg.allowedNetworks && (network == "BSC" || network == "EVM")
            && IsHexAddress(req.to)
            && (cfg.allowedContractCalls == {} || ToUpper(TrimSpace(req.to)) in cfg.allowedContractCalls)
            && CallsAggregate3(req.data)
            && (AllSpaces(req.amount) || AmountPasses(cfg.maxTransferAmount, parseFloat(TrimSpace(req.amount))))
            && TokenPasses(cfg.allowedTokenContracts, TrimSpace(req.tokenContract))
  {
    BlankIff(req.amount);
    Aggregate3Iff(req.data);
    hide TrimSpace, IsHexAddress, ToUpper, WithoutPrefix, CallsAggregate3;
  }

  lemma Aggregate3Iff(data: string)
    ensures CallsAggregate3(data)
       <==> var digits := WithoutPrefix(TrimSpace(data)); |digits| >= 8 && ToUpper(digits[..8]) == AGGREGATE3
  {
    var trimmed := TrimSpace(data);
    hide TrimSpace;
    assert "0x" <= trimmed <==> |trimmed| >= 2 && trimmed[..2] == "0x";
    var digits := WithoutPrefix(trimmed);
    if |digits| >= 8 {
      ToUpperIff(digits[..8], "82ad56cb");
      assert ToUpper("82ad56cb") == AGGREGATE3;
    }
  }
}

/** The transfer policy of policy.go, and what it means for the units a transfer sends. */
module Policy {
  import opened Wrappers
  import opened Text
  import opened Amounts
  import opened Calldata
  import opened Floats
  import opened Numerals

  datatype Config = Config(
    allowedNetworks: set<string>,
    allowedTokenContracts: set<string>,
    allowedContractCalls: set<string>,
    maxTransferAmount: real,
    bscUsdtContract: string)

  datatype TransferRequest = TransferRequest(network: string, to: string, amount: string, tokenContract: string)

  datatype ContractCallRequest = ContractCallRequest(network: string, to: string, data: string, amount: string,
                                                     tokenContract: string)

  /** strings.ToUpper on the letters a network name or an address holds. */
  function ToUpper(s: string): string {
    seq(|s|, i requires 0 <= i < |s| => if 'a' <= s[i] <= 'z' then (s[i] as int - 32) as char else s[i])
  }

  predicate IsHexDigit(c: char) {
    '0' <= c <= '9' || 'a' <= c <= 'f' || 'A' <= c <= 'F'
  }

  predicate FortyHexDigits(s: string) {
    |s| == 40 && forall i :: 0 <= i < |s| ==> IsHexDigit(s[i])
  }

  /** common.IsHexAddress. */
  predicate IsHexAddress(s: string) {
    FortyHexDigits(if |s| >= 2 && s[0] == '0' && s[1] in "xX" then s[2..] else s)
  }

  function NormalizedTokenContract(cfg: Config, req: TransferRequest, network: string): string {
    var token := TrimSpace(req.tokenContract);
    if network in {"BSC", "EVM"} && token == "" then cfg.bscUsdtContract else token
  }

  /** Whether an amount is refused: unread, not positive, or over a positive limit. NaN is none
      of these, as it compares with nothing. */
  function AmountError(cfg: Config, amount: Option<Float>): Option<string> {
    if amount.None? || AtMost(amount.value, ZERO) then Some("amount invalido")
    else if cfg.maxTransferAmount > 0.0 && Exceeds(amount.value, Finite(cfg.maxTransferAmount))
    then Some("amount acima do limite")
    else None
  }

  /** validateTransferPolicy; `parseFloat` stands for strconv.ParseFloat. */
  function TransferPolicyError(cfg: Config, req: TransferRequest, network: string,
                               parseFloat: string -> Option<Float>): Option<string> {
    var amountError := AmountError(cfg, parseFloat(TrimSpace(req.amount)));
    var token := NormalizedTokenContract(cfg, req, network);
    if network !in cfg.allowedNetworks then Some("rede nao permitida")
    else if amountError.Some? then amountError
    else if cfg.allowedTokenContracts != {} && token != "" && ToUpper(token) !in cfg.allowedTokenContracts
    then Some("token contract nao permitido")
    else if network !in {"BSC", "EVM"} then Some("rede nao suportada")
    else if !IsHexAddress(req.to) then Some("destinatario EVM invalido")
    else if token != "" && !IsHexAddress(token) then Some("token contract EVM invalido")
    else None
  }

  const AGGREGATE3 := "82AD56CB"

  function WithoutPrefix(data: string): string {
    if |data| >= 2 && data[..2] == "0x" then data[2..] else data
  }

  /** validateContractCallPolicy. */
  function ContractCallPolicyError(cfg: Config, req: ContractCallRequest, network: string,
                                   parseFloat: string -> Option<Float>): Option<string> {
    var data := WithoutPrefix(TrimSpace(req.data));
    var amount, token := TrimSpace(req.amount), TrimSpace(req.tokenContract);
    var amountError := if amount == "" then None else AmountError(cfg, parseFloat(amount));
    if network !in cfg.allowedNetworks then Some("rede nao permitida")
    else if !IsHexAddress(req.to) then Some("contrato EVM invalido")
    else if cfg.allowedContractCalls != {} && ToUpper(TrimSpace(req.to)) !in cfg.allowedContractCalls
    then Some("contract-call target nao permitido")
    else if |data| < 8 then Some("data hex invalido")
    else if ToUpper(data[..8]) != AGGREGATE3 then Some("contract-call permitido apenas para Multicall3 aggregate3")
    else if amountError.Some? then amountError
    else if cfg.allowedTokenContracts != {} && token != "" && ToUpper(token) !in cfg.allowedTokenContracts
    then Some("token contract nao permitido")
    else if token != "" && !IsHexAddress(token) then Some("token contract EVM invalido")
    else if network !in {"BSC", "EVM"} then Some("rede nao suportada")
    else None
  }

  // ---- accepted amounts ---------------------------------------------------------------

  /** An accepted amount reads as NaN, or as a positive number within a positive limit. */
  lemma AcceptedAmount(cfg: Config, req: TransferRequest, network: string, parseFloat: string -> Option<Float>)
    requires TransferPolicyError(cfg, req, network, parseFloat) == None
    ensures var amount := parseFloat(TrimSpace(req.amount));
            amount.Some?
            && (amount.value == NaN
                || (Exceeds(amount.value, ZERO)
                    && (cfg.maxTransferAmount > 0.0 ==> AtMost(amount.value, Finite(cfg.maxTransferAmount)))))
  {
    hide TrimSpace, IsHexAddress, ToUpper, NormalizedTokenContract;
  }

  /** A contract call keeps its way through the policy when its amount is replaced by one
      that reads as NaN, whatever the limit. */
  lemma NaNCallAccepted(cfg: Config, req: ContractCallRequest, network: string, parseFloat: string -> Option<Float>,
                        amount: string)
    requires ContractCallPolicyError(cfg, req, network, parseFloat) == None
    requires TrimSpace(amount) != "" && parseFloat(TrimSpace(amount)) == Some(NaN)
    ensures ContractCallPolicyError(cfg, req.(amount := amount), network, parseFloat) == None
  {
    hide TrimSpace, IsHexAddress, ToUpper, WithoutPrefix;
  }

  lemma AcceptedNumber(cfg: Config, req: TransferRequest, network: string, parseFloat: string -> Option<Float>,
                       n: Numeral)
    requires ReadsNumerals(parseFloat) && Valid(n) && TrimSpace(req.amount) == Spelled(n)
    requires TransferPolicyError(cfg, req, network, parseFloat) == None
    ensures parseFloat(Spelled(n)) == Some(Finite(NumberOf(n)))
    ensures cfg.maxTransferAmount > 0.0 ==> NumberOf(n) <= cfg.maxTransferAmount
  {
    AcceptedAmount(cfg, req, network, parseFloat);
    hide TransferPolicyError, TrimSpace, Valid, Spelled, NumberOf;
  }

  /** The transfer passes the policy under this limit. */
  predicate AcceptedUnder(cfg: Config, req: TransferRequest, network: string, parseFloat: string -> Option<Float>,
                          limit: real)
  {
    limit > 0.0 && TransferPolicyError(cfg.(maxTransferAmount := limit), req, network, parseFloat) == None
  }

  /** It passes under a limit as large as its amount. */
  lemma AcceptedUnderItself(cfg: Config, req: TransferRequest, network: string, parseFloat: string -> Option<Float>,
                            v: real)
    requires TransferPolicyError(cfg, req, network, parseFloat) == None
    requires parseFloat(TrimSpace(req.amount)) == Some(Finite(v))
    ensures AcceptedUnder(cfg, req, network, parseFloat, v)
  {
    hide TrimSpace, IsHexAddress, ToUpper;
    assert NormalizedTokenContract(cfg.(maxTransferAmount := v), req, network)
        == NormalizedTokenContract(cfg, req, network);
  }

  /** The units stay within every limit that lets the amount through. */
  ghost predicate UnitsWithinLimits(cfg: Config, req: TransferRequest, network: string,
                                    parseFloat: string -> Option<Float>, units: int, decimals: nat)
  {
    forall limit :: AcceptedUnder(cfg, req, network, parseFloat, limit) ==>
      units as real <= limit * Pow10(decimals) as real
  }

  lemma ScaleMonotone(x: real, y: real, p: real)
    requires x <= y && p >= 0.0
    ensures x * p <= y * p
  {
  }

  /** Main result: an accepted numeral that parseUnits takes sends at most limit * 10^decimals
      units, whatever limit lets it through, if and only if it has no negative exponent or
      sends no unit. */
  lemma AcceptedUnitsWithinIff(cfg: Config, req: TransferRequest, network: string,
                               parseFloat: string -> Option<Float>, decimals: int, n: Numeral)
    requires ReadsNumerals(parseFloat) && Valid(n) && TrimSpace(req.amount) == Spelled(n)
    requires 0 <= decimals <= 30 && Units(req.amount, decimals).Ok?
    requires TransferPolicyError(cfg, req, network, parseFloat) == None
    ensures var units := Units(req.amount, decimals).value;
            && units >= 0
            && (UnitsWithinLimits(cfg, req, network, parseFloat, units, decimals) <==> PowerOf(n) >= 0 || units == 0)
  {
    hide TransferPolicyError, Valid, Spelled, TrimSpace, Units, Pow10, NumberOf, PowerOf, ScaledSignificand,
         ReadsNumerals, AcceptedUnder;
    var v, p := NumberOf(n), Pow10(decimals) as real;
    UnitsOfNumeral(req.amount, n, decimals);
    UnitsNotNegative(n, decimals);
    UnitsWithinNumberIff(n, decimals);
    AcceptedNumber(cfg, req, network, parseFloat, n);
    AcceptedUnderItself(cfg, req, network, parseFloat, v);
    forall limit | AcceptedUnder(cfg, req, network, parseFloat, limit)
      ensures v * p <= limit * p
    {
      AcceptedUnderLimit(cfg, req, network, parseFloat, limit, n);
      ScaleMonotone(v, limit, p);
    }
  }

  lemma AcceptedUnderLimit(cfg: Config, req: TransferRequest, network: string, parseFloat: string -> Option<Float>,
                           limit: real, n: Numeral)
    requires ReadsNumerals(parseFloat) && Valid(n) && TrimSpace(req.amount) == Spelled(n)
    requires AcceptedUnder(cfg, req, network, parseFloat, limit)
    ensures NumberOf(n) <= limit
  {
    hide TransferPolicyError, ReadsNumerals, TrimSpace, Spelled;
    AcceptedNumber(cfg.(maxTransferAmount := limit), req, network, parseFloat, n);
  }

  /** Main result: what an accepted numeral sends reads back from the calldata as the
      recipient and exactly the significand times 10^decimals, rounded down, if and only if
      that is a uint256; a limit that is one guarantees it for every amount without a
      negative exponent. */
  lemma AcceptedTransferReadsBack(cfg: Config, req: TransferRequest, network: string,
                                  parseFloat: string -> Option<Float>, decimals: int, n: Numeral, to: seq<byte>)
    requires ReadsNumerals(parseFloat) && Valid(n) && TrimSpace(req.amount) == Spelled(n)
    requires 0 <= decimals <= 30 && Units(req.amount, decimals).Ok? && |to| == 20
    requires TransferPolicyError(cfg, req, network, parseFloat) == None
    ensures var units := Units(req.amount, decimals).value;
            && units == ScaledSignificand(n, decimals).Floor >= 0
            && (|BigEndian(units)| <= CALLDATA_LENGTH ==>
                  (Decode(TransferData(to, units)) == Transfer(SELECTOR, to, units) <==> units < Pow256(32)))
            && (cfg.maxTransferAmount > 0.0 && PowerOf(n) >= 0
                && cfg.maxTransferAmount * Pow10(decimals) as real < Pow256(32) as real ==>
                  units < Pow256(32) && |BigEndian(units)| <= CALLDATA_LENGTH)
  {
    hide TransferPolicyError, Valid, Spelled, TrimSpace, Units, Pow10, NumberOf, PowerOf, ScaledSignificand,
         ReadsNumerals, Pow256, BigEndian, TransferData, Decode;
    UnitsOfNumeral(req.amount, n, decimals);
    UnitsNotNegative(n, decimals);
    var units := ScaledSignificand(n, decimals).Floor;
    if |BigEndian(units)| <= CALLDATA_LENGTH {
      ReadsBack(to, units);
    }
    if cfg.maxTransferAmount > 0.0 && PowerOf(n) >= 0
       && cfg.maxTransferAmount * Pow10(decimals) as real < Pow256(32) as real {
      UnitsWithinNumberIff(n, decimals);
      AcceptedNumber(cfg, req, network, parseFloat, n);
      ScaleMonotone(NumberOf(n), cfg.maxTransferAmount, Pow10(decimals) as real);
      assert units as real < Pow256(32) as real;
      BigEndianLength(units, 32);
    }
  }
}

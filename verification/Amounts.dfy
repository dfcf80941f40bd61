/** parseUnits of main.go: a decimal text becomes an integer number of units. */
module Amounts {
  import opened Wrappers
  import opened Text
  import opened Arithmetic

  function Pow10(n: nat): (p: nat)
    ensures p >= 1
  {
    if n == 0 then 1 else 10 * Pow10(n - 1)
  }

  predicate IsDigit(c: char) {
    '0' <= c <= '9'
  }

  predicate AllDigits(s: string) {
    forall i :: 0 <= i < |s| ==> IsDigit(s[i])
  }

  /** A non-empty run of digits. */
  predicate Digits(s: string) {
    s != "" && AllDigits(s)
  }

  function DigitValue(c: char): (value: nat)
    requires IsDigit(c)
    ensures value < 10
  {
    c as int - '0' as int
  }

  function DigitsValue(s: string): (value: nat)
    requires AllDigits(s)
  {
    if s == "" then 0
    else DigitsValue(s[..|s| - 1]) * 10 + DigitValue(s[|s| - 1])
  }

  /** big.Int.SetString in base 10: an optional sign and digits. */
  function SetString(s: string): Option<int> {
    var unsigned := if s != "" && s[0] in "+-" then s[1..] else s;
    if !Digits(unsigned) then None
    else
      var magnitude: int := DigitsValue(unsigned);
      Some(if s[0] == '-' then -magnitude else magnitude)
  }

  /** Where the first dot is, or the length. */
  function DotAt(s: string): (at: nat)
    ensures at <= |s| && (at < |s| ==> s[at] == '.')
    ensures forall i :: 0 <= i < at ==> s[i] != '.'
  {
    if s == "" || s[0] == '.' then 0 else 1 + DotAt(s[1..])
  }

  /** strings.Split at dots. */
  function Split(s: string): (parts: seq<string>)
    ensures parts != []
    decreases |s|
  {
    if DotAt(s) == |s| then [s] else [s[..DotAt(s)]] + Split(s[DotAt(s) + 1..])
  }

  function Zeros(n: nat): (zeros: string)
    ensures |zeros| == n && forall i :: 0 <= i < n ==> zeros[i] == '0'
  {
    seq(n, i => '0')
  }

  /** A fraction cut or padded to the number of decimals. */
  function FitFraction(fraction: string, decimals: nat): (fitted: string)
    ensures |fitted| == decimals
  {
    if |fraction| > decimals then fraction[..decimals] else fraction + Zeros(decimals - |fraction|)
  }

  function FractionUnits(fraction: string, decimals: nat): Option<int> {
    var fitted := FitFraction(fraction, decimals);
    if fitted == "" then Some(0) else SetString(fitted)
  }

  /** What parseUnits answers. */
  function Units(value: string, decimals: int): Result<int> {
    var parts := Split(TrimSpace(value));
    if decimals < 0 || decimals > 30 then Err("decimais invalidos")
    else if |parts| > 2 || parts[0] == "" then Err("amount invalido")
    else
      match SetString(parts[0])
      case None => Err("amount invalido")
      case Some(whole) =>
        if |parts| == 1 then Ok(whole * Pow10(decimals))
        else
          match FractionUnits(parts[1], decimals)
          case None => Err("amount invalido")
          case Some(frac) => Ok(whole * Pow10(decimals) + frac)
  }

  method ParseUnits(value: string, decimals: int) returns (units: Result<int>)
    ensures units == Units(value, decimals)
  {
    hide Split, SetString, TrimSpace, Pow10;
    if decimals < 0 || decimals > 30 {
      return Err("decimais invalidos");
    }
    var parts := Split(TrimSpace(value));
    if |parts| > 2 || parts[0] == "" {
      return Err("amount invalido");
    }
    var number := SetString(parts[0]);
    if number.None? {
      return Err("amount invalido");
    }
    var whole := number.value * Pow10(decimals);
    if |parts| == 1 {
      return Ok(whole);
    }
    var fraction := parts[1];
    if |fraction| > decimals {
      fraction := fraction[..decimals];
    }
    while |fraction| < decimals
      invariant |fraction| <= decimals
      invariant fraction + Zeros(decimals - |fraction|) == FitFraction(parts[1], decimals)
    {
      assert fraction + Zeros(decimals - |fraction|) == (fraction + "0") + Zeros(decimals - |fraction| - 1);
      fraction := fraction + "0";
    }
    assert fraction + Zeros(0) == fraction;
    var frac := 0;
    if fraction != "" {
      number := SetString(fraction);
      if number.None? {
        return Err("amount invalido");
      }
      frac := number.value;
    }
    return Ok(whole + frac);
  }

  // ---- plain decimals --------------------------------------------------------------

  function WholePart(s: string): string {
    s[..DotAt(s)]
  }

  function FractionPart(s: string): string {
    if DotAt(s) == |s| then "" else s[DotAt(s) + 1..]
  }

  /** Digits, or digits, a dot and digits. */
  predicate PlainDecimal(s: string) {
    Digits(WholePart(s)) && (DotAt(s) == |s| || Digits(FractionPart(s)))
  }

  /** All digits of a plain decimal as one number: the value times 10^(fraction digits). */
  function Mantissa(s: string): nat
    requires PlainDecimal(s)
  {
    DigitsValue(WholePart(s)) * Pow10(|FractionPart(s)|) + DigitsValue(FractionPart(s))
  }

  /** The number a plain decimal stands for. */
  function Value(s: string): real
    requires PlainDecimal(s)
  {
    DigitsValue(WholePart(s)) as real
    + DigitsValue(FractionPart(s)) as real / Pow10(|FractionPart(s)|) as real
  }

  /** The value in units of 10^-decimals. */
  function Scaled(s: string, decimals: nat): real
    requires PlainDecimal(s)
  {
    Value(s) * Pow10(decimals) as real
  }

  lemma {:induction false} Pow10Adds(a: nat, b: nat)
    ensures Pow10(a + b) == Pow10(a) * Pow10(b)
  {
    if a > 0 {
      Pow10Adds(a - 1, b);
    }
  }

  lemma {:induction false} PaddedValue(s: string, n: nat)
    requires AllDigits(s)
    ensures DigitsValue(s + Zeros(n)) == DigitsValue(s) * Pow10(n)
  {
    if n == 0 {
      assert s + Zeros(0) == s;
    } else {
      var longer := s + Zeros(n);
      assert longer[..|longer| - 1] == s + Zeros(n - 1);
      PaddedValue(s, n - 1);
      MulReorder(DigitsValue(s), 10, Pow10(n - 1));
    }
  }

  lemma {:induction false} CutValue(s: string, n: nat)
    requires n <= |s| && AllDigits(s)
    ensures DigitsValue(s[..n]) == DigitsValue(s) / Pow10(|s| - n)
    decreases |s|
  {
    if n == |s| {
      assert s[..n] == s;
    } else {
      var init := s[..|s| - 1];
      CutValue(init, n);
      assert init[..n] == s[..n];
      assert DigitsValue(s) / 10 == DigitsValue(init);
      assert Pow10(|s| - n) == Pow10(|init| - n) * 10;
      DivDiv(DigitsValue(s), Pow10(|init| - n), 10);
    }
  }

  lemma SetStringOfDigits(s: string)
    requires Digits(s)
    ensures SetString(s) == Some(DigitsValue(s))
  {
    hide DigitsValue;
    assert IsDigit(s[0]);
  }

  predicate NoDot(s: string) {
    forall i :: 0 <= i < |s| ==> s[i] != '.'
  }

  lemma {:induction false} DotAtJoin(a: string, rest: string)
    requires NoDot(a)
    ensures DotAt(a + "." + rest) == |a|
    ensures DotAt(a) == |a|
  {
    var s := a + "." + rest;
    assert s[|a|] == '.' && forall i :: 0 <= i < |a| ==> s[i] == a[i];
  }

  lemma SplitJoin(a: string, b: string)
    requires NoDot(a) && NoDot(b)
    ensures Split(a) == [a] && Split(a + "." + b) == [a, b]
  {
    DotAtJoin(a, b);
    DotAtJoin(b, "");
    var s := a + "." + b;
    assert s[..|a|] == a && s[|a| + 1..] == b;
  }

  lemma DigitsHaveNoDot(s: string)
    requires AllDigits(s)
    ensures NoDot(s)
  {
    forall i | 0 <= i < |s|
      ensures s[i] != '.'
    {
      assert IsDigit(s[i]);
    }
  }

  lemma SplitOfPlain(s: string)
    requires PlainDecimal(s)
    ensures Split(s) == if DotAt(s) == |s| then [WholePart(s)] else [WholePart(s), FractionPart(s)]
    ensures WholePart(s) != "" && (DotAt(s) == |s| ==> FractionPart(s) == "")
  {
    hide AllDigits, NoDot, DotAt, Split, WholePart, FractionPart, PlainDecimal;
    PlainHasDigits(s);
    PartsJoin(s);
    DigitsHaveNoDot(WholePart(s));
    DigitsHaveNoDot(FractionPart(s));
    SplitJoin(WholePart(s), FractionPart(s));
  }

  lemma PartsJoin(s: string)
    ensures s == if DotAt(s) == |s| then WholePart(s) else WholePart(s) + "." + FractionPart(s)
    ensures DotAt(s) == |s| ==> FractionPart(s) == ""
  {
    hide DotAt;
    if DotAt(s) < |s| {
      CutAround(s, DotAt(s));
    }
  }

  lemma CutAround(s: string, at: nat)
    requires at < |s| && s[at] == '.'
    ensures s == s[..at] + "." + s[at + 1..]
  {
    assert s == s[..at] + s[at..];
    assert s[at..] == "." + s[at + 1..];
    assert s[..at] + ("." + s[at + 1..]) == s[..at] + "." + s[at + 1..];
  }

  lemma FittedDigits(fraction: string, decimals: nat)
    requires AllDigits(fraction)
    ensures AllDigits(FitFraction(fraction, decimals))
  {
  }

  lemma FittedPad(fraction: string, decimals: nat)
    requires AllDigits(fraction) && |fraction| <= decimals
    ensures AllDigits(FitFraction(fraction, decimals))
    ensures DigitsValue(FitFraction(fraction, decimals)) == DigitsValue(fraction) * Pow10(decimals - |fraction|)
  {
    FittedDigits(fraction, decimals);
    PaddedValue(fraction, decimals - |fraction|);
  }

  lemma FittedCut(fraction: string, decimals: nat)
    requires AllDigits(fraction) && |fraction| > decimals
    ensures AllDigits(FitFraction(fraction, decimals))
    ensures DigitsValue(FitFraction(fraction, decimals)) == DigitsValue(fraction) / Pow10(|fraction| - decimals)
  {
    FittedDigits(fraction, decimals);
    CutValue(fraction, decimals);
  }

  lemma FittedValue(fraction: string, decimals: nat)
    requires AllDigits(fraction)
    ensures AllDigits(FitFraction(fraction, decimals))
    ensures DigitsValue(FitFraction(fraction, decimals))
         == ScaledFraction(DigitsValue(fraction), |fraction|, decimals)
  {
    hide DigitsValue, Pow10, AllDigits, FitFraction;
    if |fraction| <= decimals {
      FittedPad(fraction, decimals);
    } else {
      FittedCut(fraction, decimals);
    }
  }

  lemma NoDigits()
    ensures AllDigits("") && DigitsValue("") == 0
  {
  }

  /** Fitting the fraction is scaling it by a power of ten and rounding down. */
  lemma FractionOfPlain(fraction: string, decimals: nat)
    requires AllDigits(fraction)
    ensures FractionUnits(fraction, decimals) == Some(ScaledFraction(DigitsValue(fraction), |fraction|, decimals))
  {
    hide ScaledFraction, DigitsValue, SetString, FitFraction, AllDigits;
    FittedValue(fraction, decimals);
    NoDigits();
    var fitted := FitFraction(fraction, decimals);
    if fitted != "" {
      SetStringOfDigits(fitted);
    }
  }

  function ScaledFraction(f: nat, digits: nat, decimals: nat): int {
    if digits <= decimals then f * Pow10(decimals - digits) else f / Pow10(digits - decimals)
  }

  /** Scaling the mantissa scales the whole part and the fraction. */
  lemma ScaledMantissa(w: nat, f: nat, k: nat, d: nat)
    ensures MulDiv(w * Pow10(k) + f, Pow10(d), Pow10(k)) == w * Pow10(d) + ScaledFraction(f, k, d)
  {
    hide Pow10, MulDiv;
    if k <= d {
      Pow10Adds(k, d - k);
      PadMantissa(w, f, Pow10(k), Pow10(d - k), Pow10(d));
    } else {
      Pow10Adds(d, k - d);
      CutMantissa(w, f, Pow10(d), Pow10(k - d), Pow10(k));
    }
  }

  lemma PadMantissa(w: nat, f: nat, p: nat, e: nat, pe: nat)
    requires p > 0 && pe == p * e
    ensures MulDiv(w * p + f, pe, p) == w * pe + f * e
  {
    var n := w * p + f;
    MulReorder(n, p, e);
    MulDistributes(w * p, f, e);
    MulReorder(w, p, e);
    QuotientIs(n * pe, p, n * e, 0);
  }

  lemma CutMantissa(w: nat, f: nat, p: nat, e: nat, pe: nat)
    requires p > 0 && e > 0 && pe == p * e
    ensures pe > 0 && MulDiv(w * pe + f, p, pe) == w * p + f / e
  {
    var n := w * pe + f;
    ProductPositive(p, e);
    CancelFactor(n, e, p);
    assert e * p == pe;
    MulReorder(w, p, e);
    assert w * pe == w * p * e;
    AddMultiple(f, e, w * p);
  }

  lemma UnitsOfPlain(value: string, decimals: int)
    requires 0 <= decimals <= 30 && PlainDecimal(TrimSpace(value))
    ensures var s := TrimSpace(value);
            Units(value, decimals)
            == Ok(DigitsValue(WholePart(s)) * Pow10(decimals)
                  + ScaledFraction(DigitsValue(FractionPart(s)), |FractionPart(s)|, decimals))
  {
    hide Units, Split, SetString, FractionUnits, TrimSpace, DigitsValue, AllDigits, WholePart, FractionPart,
         PlainDecimal, DotAt, Pow10, ScaledFraction;
    var s := TrimSpace(value);
    PlainHasDigits(s);
    SplitOfPlain(s);
    var whole, fraction := WholePart(s), FractionPart(s);
    SetStringOfDigits(whole);
    if DotAt(s) == |s| {
      UnitsFromWhole(value, decimals, whole, DigitsValue(whole));
      NoFraction(decimals);
    } else {
      FractionOfPlain(fraction, decimals);
      UnitsFromParts(value, decimals, whole, fraction, DigitsValue(whole), FractionUnits(fraction, decimals).value);
    }
  }

  lemma NoFraction(decimals: nat)
    ensures AllDigits("") && ScaledFraction(DigitsValue(""), 0, decimals) == 0
  {
  }

  lemma UnitsFromWhole(value: string, decimals: int, whole: string, w: int)
    requires Split(TrimSpace(value)) == [whole] && whole != "" && 0 <= decimals <= 30
    requires SetString(whole) == Some(w)
    ensures Units(value, decimals) == Ok(w * Pow10(decimals))
  {
    hide Split, SetString, FractionUnits, TrimSpace, Pow10;
  }

  lemma UnitsFromParts(value: string, decimals: int, whole: string, fraction: string, w: int, f: int)
    requires Split(TrimSpace(value)) == [whole, fraction] && whole != "" && 0 <= decimals <= 30
    requires SetString(whole) == Some(w) && FractionUnits(fraction, decimals) == Some(f)
    ensures Units(value, decimals) == Ok(w * Pow10(decimals) + f)
  {
    hide Split, SetString, FractionUnits, TrimSpace, Pow10;
  }

  /** The units over one denominator. */
  lemma UnitsAreQuotient(value: string, decimals: int)
    requires 0 <= decimals <= 30 && PlainDecimal(TrimSpace(value))
    ensures var s := TrimSpace(value);
            Units(value, decimals) == Ok(MulDiv(Mantissa(s), Pow10(decimals), Pow10(|FractionPart(s)|)))
  {
    var s := TrimSpace(value);
    hide MulDiv, Units, ScaledFraction, Pow10, TrimSpace, DigitsValue, WholePart, FractionPart, AllDigits;
    UnitsOfPlain(value, decimals);
    PlainHasDigits(s);
    ScaledMantissa(DigitsValue(WholePart(s)), DigitsValue(FractionPart(s)), |FractionPart(s)|, decimals);
  }

  /** Main result: for every plain decimal, with spaces around it or not, and every
      supported number of decimals, the units are the value times 10^decimals, rounded
      down. */
  lemma UnitsAreFloor(value: string, decimals: int)
    requires 0 <= decimals <= 30 && PlainDecimal(TrimSpace(value))
    ensures Units(value, decimals) == Ok(Scaled(TrimSpace(value), decimals).Floor)
  {
    hide *;
    var s := TrimSpace(value);
    UnitsAreQuotient(value, decimals);
    ScaledValue(s, decimals);
    FloorOfMulDiv(Mantissa(s), Pow10(decimals), Pow10(|FractionPart(s)|), Scaled(s, decimals));
  }

  lemma PlainHasDigits(s: string)
    requires PlainDecimal(s)
    ensures Digits(WholePart(s)) && AllDigits(FractionPart(s))
  {
  }

  lemma ScaledValue(s: string, decimals: nat)
    requires PlainDecimal(s)
    ensures Scaled(s, decimals)
         == (Mantissa(s) * Pow10(decimals)) as real / Pow10(|FractionPart(s)|) as real
  {
    hide Pow10, DigitsValue, FractionPart, WholePart, AllDigits;
    assert AllDigits(FractionPart(s)) by {
      PlainHasDigits(s);
    }
    CommonDenominator(DigitsValue(WholePart(s)), DigitsValue(FractionPart(s)), Pow10(|FractionPart(s)|),
                      Pow10(decimals));
  }

  /** Nothing is lost when the decimals cover the fraction. */
  lemma UnitsExact(value: string, decimals: int)
    requires 0 <= decimals <= 30 && PlainDecimal(TrimSpace(value))
    requires |FractionPart(TrimSpace(value))| <= decimals
    ensures Units(value, decimals).Ok?
    ensures Units(value, decimals).value as real == Scaled(TrimSpace(value), decimals)
  {
    hide *;
    var s := TrimSpace(value);
    var k := |FractionPart(s)|;
    UnitsAreQuotient(value, decimals);
    ScaledValue(s, decimals);
    Pow10Adds(k, decimals - k);
    ExactQuotient(Mantissa(s), Pow10(k), Pow10(decimals - k));
  }

  lemma ExactQuotient(m: nat, p: nat, e: nat)
    requires p > 0
    ensures MulDiv(m, p * e, p) as real == (m * (p * e)) as real / p as real
  {
    MulReorder(m, p, e);
    QuotientIs(m * (p * e), p, m * e, 0);
    var y := (m * e) as real;
    assert y * p as real == (m * (p * e)) as real;
    RealQuotient(y, p as real, (m * (p * e)) as real);
  }

  /** Parsing at d is parsing at d + 1 and dropping the last digit. */
  lemma FewerDecimals(value: string, decimals: int)
    requires 0 <= decimals < 30 && PlainDecimal(TrimSpace(value))
    ensures Units(value, decimals).Ok? && Units(value, decimals + 1).Ok?
    ensures Units(value, decimals).value == Units(value, decimals + 1).value / 10
  {
    var s := TrimSpace(value);
    UnitsAreQuotient(value, decimals);
    UnitsAreQuotient(value, decimals + 1);
    assert Pow10(decimals + 1) == 10 * Pow10(decimals);
    DropDigit(Mantissa(s), Pow10(decimals), Pow10(|FractionPart(s)|));
    hide *;
  }

  lemma DropDigit(m: nat, p: nat, b: nat)
    requires b > 0
    ensures MulDiv(m, 10 * p, b) / 10 == MulDiv(m, p, b)
  {
    MulReorder(m, 10, p);
    DivDiv(m * (10 * p), 10, b);
    CancelFactor(m * p, b, 10);
  }

  /** With a minus sign the rule fails: the fraction is added to the negative whole part,
      so -0.5 at one decimal gives +5. */
  lemma SignedAddsFraction(w: string, f: string, decimals: int)
    requires Digits(w) && Digits(f) && 0 <= decimals <= 30
    ensures Units("-" + w + "." + f, decimals)
         == Ok(-(DigitsValue(w) * Pow10(decimals)) + ScaledFraction(DigitsValue(f), |f|, decimals))
  {
    hide Units, Split, SetString, FractionUnits, ScaledFraction, DigitsValue, Pow10, TrimSpace, AllDigits;
    var s, whole := "-" + w + "." + f, "-" + w;
    assert TrimSpace(s) == s by {
      SignedTrim(w, f);
    }
    assert Split(s) == [whole, f] by {
      SplitOfSigned(w, f);
    }
    SetStringOfMinus(w);
    FractionOfDigits(f, decimals);
    UnitsFromParts(s, decimals, whole, f, SetString(whole).value, FractionUnits(f, decimals).value);
    SignedProduct(DigitsValue(w), Pow10(decimals));
  }

  lemma FractionOfDigits(f: string, decimals: nat)
    requires Digits(f)
    ensures FractionUnits(f, decimals) == Some(ScaledFraction(DigitsValue(f), |f|, decimals))
  {
    FractionOfPlain(f, decimals);
  }

  lemma SplitOfSigned(w: string, f: string)
    requires Digits(w) && Digits(f)
    ensures Split("-" + w + "." + f) == ["-" + w, f]
  {
    hide Split;
    DigitsHaveNoDot(w);
    DigitsHaveNoDot(f);
    SplitJoin("-" + w, f);
  }

  lemma SignedProduct(a: int, b: int)
    ensures -a * b == -(a * b)
  {
  }

  lemma SetStringOfMinus(w: string)
    requires Digits(w)
    ensures SetString("-" + w).Some? && SetString("-" + w).value + DigitsValue(w) == 0
  {
    hide DigitsValue, AllDigits;
    assert ("-" + w)[1..] == w;
  }

  lemma SignedTrim(w: string, f: string)
    requires Digits(f)
    ensures TrimSpace("-" + w + "." + f) == "-" + w + "." + f
  {
    var s := "-" + w + "." + f;
    assert s[|s| - 1] == f[|f| - 1] && IsDigit(f[|f| - 1]);
    assert Trim(s);
    TrimSpaceEnds(s);
  }

  /** A plus sign changes nothing. */
  lemma PlusSign(value: string, decimals: int)
    requires PlainDecimal(value)
    ensures Units("+" + value, decimals) == Units(value, decimals)
  {
    SplitOfPlus(value);
    SplitOfPlain(value);
    SetStringOfPlus(WholePart(value));
    PlainEnds(value);
    hide *;
    SameParts("+" + value, value, decimals);
  }

  /** The units depend on what the whole part reads as and on the fraction. */
  lemma SameParts(value: string, other: string, decimals: int)
    requires var p, q := Split(TrimSpace(value)), Split(TrimSpace(other));
             |p| == |q| && p[0] != "" && q[0] != "" && SetString(p[0]) == SetString(q[0]) && p[1..] == q[1..]
    ensures Units(value, decimals) == Units(other, decimals)
  {
    hide Split, TrimSpace, SetString, FractionUnits, Pow10;
    var p, q := Split(TrimSpace(value)), Split(TrimSpace(other));
    assert |p| == 2 ==> p[1..][0] == q[1..][0];
  }

  lemma PlainEnds(value: string)
    requires PlainDecimal(value)
    ensures TrimSpace(value) == value && TrimSpace("+" + value) == "+" + value
  {
    PartsJoin(value);
    var w, f := WholePart(value), FractionPart(value);
    hide DotAt, IsSpace;
    assert value[0] == w[0] && IsDigit(w[0]);
    assert value[|value| - 1] == if f == "" then w[|w| - 1] else f[|f| - 1];
    assert IsDigit(value[|value| - 1]);
    NotASpace(value[0]);
    NotASpace(value[|value| - 1]);
    NotASpace('+');
    assert Trim(value) && Trim("+" + value);
    TrimSpaceEnds(value);
    TrimSpaceEnds("+" + value);
  }

  lemma NotASpace(c: char)
    requires IsDigit(c) || c == '+'
    ensures !IsSpace(c)
  {
  }

  lemma SplitOfPlus(value: string)
    requires PlainDecimal(value)
    ensures Split("+" + value)
         == if DotAt(value) == |value| then ["+" + WholePart(value)] else ["+" + WholePart(value), FractionPart(value)]
  {
    hide DotAt, Split, AllDigits, WholePart, FractionPart;
    PartsJoin(value);
    SplitAfterPlus(WholePart(value), FractionPart(value));
    Prepend("+", WholePart(value), ".", FractionPart(value));
  }

  lemma Prepend(a: string, b: string, c: string, d: string)
    ensures a + (b + c + d) == a + b + c + d
  {
  }

  lemma SplitAfterPlus(w: string, f: string)
    requires Digits(w) && (f == "" || Digits(f))
    ensures Split("+" + w) == ["+" + w] && Split("+" + w + "." + f) == ["+" + w, f]
  {
    DigitsHaveNoDot(w);
    DigitsHaveNoDot(f);
    hide Split, AllDigits;
    SplitJoin("+" + w, f);
  }

  lemma SetStringOfPlus(w: string)
    requires Digits(w)
    ensures SetString("+" + w) == SetString(w)
  {
    assert ("+" + w)[1..] == w;
  }
}

/** The decimal texts strconv.ParseFloat and parseUnits both have a view of: digits, with or
    without a point and an exponent. ParseFloat reads the number; parseUnits cuts the text
    after the point to length before it reads it, and an exponent with it. */
module Numerals {
  import opened Amounts
  import opened Arithmetic
  import opened Floats
  import opened Text
  import opened Wrappers

  datatype Exponent = Exponent(mark: char, sign: string, digits: string)

  datatype Numeral = Numeral(whole: string, point: bool, fraction: string, exponent: Option<Exponent>)

  predicate Valid(n: Numeral) {
    Digits(n.whole) && AllDigits(n.fraction) && (n.point || n.fraction == "")
    && (n.exponent.Some? ==>
          n.exponent.value.mark in "eE" && n.exponent.value.sign in {"", "+", "-"} && Digits(n.exponent.value.digits))
  }

  function Suffix(e: Option<Exponent>): string {
    if e.None? then "" else [e.value.mark] + e.value.sign + e.value.digits
  }

  function Spelled(n: Numeral): string {
    if n.point then n.whole + "." + (n.fraction + Suffix(n.exponent)) else n.whole + Suffix(n.exponent)
  }

  // ---- the number -------------------------------------------------------------------

  /** 10 to an integer power. */
  function Power(x: int): (p: real)
    ensures p > 0.0
  {
    if x >= 0 then Pow10(x) as real else 1.0 / Pow10(-x) as real
  }

  function PowerOf(n: Numeral): int
    requires Valid(n)
  {
    if n.exponent.None? then 0
    else
      var x: int := DigitsValue(n.exponent.value.digits);
      if n.exponent.value.sign == "-" then -x else x
  }

  /** The number before the exponent. */
  function Significand(n: Numeral): (m: real)
    requires Valid(n)
    ensures m >= 0.0
  {
    DigitsValue(n.whole) as real + DigitsValue(n.fraction) as real / Pow10(|n.fraction|) as real
  }

  function NumberOf(n: Numeral): (v: real)
    requires Valid(n)
    ensures v >= 0.0
  {
    Significand(n) * Power(PowerOf(n))
  }

  /** The numerals a parser takes it reads as their number; others are out of its range. */
  ghost predicate ReadsNumerals(parse: string -> Option<Float>) {
    forall n :: Valid(n) && parse(Spelled(n)).Some? ==> parse(Spelled(n)) == Some(Finite(NumberOf(n)))
  }

  // ---- the units ----------------------------------------------------------------------

  /** parseUnits reads the numeral: it has no exponent, or one that is cut off whole. */
  predicate Cuttable(n: Numeral, decimals: nat) {
    n.exponent.None? || (n.point && |n.fraction| >= decimals)
  }

  /** The significand in units of 10^-decimals. */
  function ScaledSignificand(n: Numeral, decimals: nat): real
    requires Valid(n)
  {
    Significand(n) * Pow10(decimals) as real
  }

  lemma PartsAreFloor(n: Numeral, decimals: nat)
    requires Valid(n)
    ensures DigitsValue(n.whole) * Pow10(decimals)
            + ScaledFraction(DigitsValue(n.fraction), |n.fraction|, decimals)
         == ScaledSignificand(n, decimals).Floor
  {
    hide DigitsValue, Pow10, ScaledFraction, MulDiv;
    var w, f, p, e := DigitsValue(n.whole), DigitsValue(n.fraction), Pow10(|n.fraction|), Pow10(decimals);
    ScaledMantissa(w, f, |n.fraction|, decimals);
    CommonDenominator(w, f, p, e);
    FloorOfMulDiv(w * p + f, e, p, ScaledSignificand(n, decimals));
  }

  lemma WholeIsFloor(n: Numeral, decimals: nat)
    requires Valid(n) && n.fraction == ""
    ensures DigitsValue(n.whole) * Pow10(decimals) == ScaledSignificand(n, decimals).Floor
  {
    NoFraction(decimals);
    hide DigitsValue, Pow10, ScaledFraction, ScaledSignificand;
    PartsAreFloor(n, decimals);
  }

  lemma SuffixHasMark(e: Exponent)
    requires e.mark in "eE" && e.sign in {"", "+", "-"} && Digits(e.digits)
    ensures NoDot(Suffix(Some(e))) && Suffix(Some(e)) != "" && !IsDigit(Suffix(Some(e))[0])
    ensures Suffix(Some(e))[0] !in "+-"
    ensures IsDigit(Suffix(Some(e))[|Suffix(Some(e))| - 1])
  {
    DigitsHaveNoDot(e.digits);
    var s := Suffix(Some(e));
    assert s[|s| - 1] == e.digits[|e.digits| - 1];
  }

  lemma NotSpace(c: char)
    requires IsDigit(c) || c == '.'
    ensures !IsSpace(c)
  {
  }

  lemma JoinNoDot(a: string, b: string)
    requires NoDot(a) && NoDot(b)
    ensures NoDot(a + b)
  {
  }

  lemma SpelledEnds(n: Numeral)
    requires Valid(n)
    ensures TrimSpace(Spelled(n)) == Spelled(n)
  {
    var s := Spelled(n);
    assert s[0] == n.whole[0] && IsDigit(s[0]);
    assert IsDigit(s[|s| - 1]) || s[|s| - 1] == '.' by {
      if n.exponent.Some? {
        SuffixHasMark(n.exponent.value);
        assert s[|s| - 1] == Suffix(n.exponent)[|Suffix(n.exponent)| - 1];
      } else if n.fraction != "" {
        assert s[|s| - 1] == n.fraction[|n.fraction| - 1];
      }
    }
    hide IsSpace, IsDigit;
    NotSpace(s[0]);
    NotSpace(s[|s| - 1]);
    assert Trim(s);
    TrimSpaceEnds(s);
  }

  lemma PartsHaveNoDot(n: Numeral)
    requires Valid(n)
    ensures NoDot(n.whole) && NoDot(n.fraction + Suffix(n.exponent)) && NoDot(n.whole + Suffix(n.exponent))
  {
    DigitsHaveNoDot(n.whole);
    DigitsHaveNoDot(n.fraction);
    hide Suffix;
    if n.exponent.Some? {
      SuffixHasMark(n.exponent.value);
      JoinNoDot(n.whole, Suffix(n.exponent));
      JoinNoDot(n.fraction, Suffix(n.exponent));
    } else {
      NoSuffix();
      assert n.whole + "" == n.whole && n.fraction + "" == n.fraction;
    }
  }

  lemma NoSuffix()
    ensures Suffix(None) == ""
  {
  }

  lemma SpelledSplits(n: Numeral)
    requires Valid(n)
    ensures Split(Spelled(n))
         == if n.point then [n.whole, n.fraction + Suffix(n.exponent)] else [n.whole + Suffix(n.exponent)]
  {
    PartsHaveNoDot(n);
    hide Split, NoDot, Valid, Suffix;
    if n.point {
      SplitJoin(n.whole, n.fraction + Suffix(n.exponent));
    } else {
      SplitJoin(n.whole + Suffix(n.exponent), "");
    }
  }

  /** A text with a character that is no digit, past a possible sign, is no number. */
  lemma NotANumber(s: string, i: nat)
    requires i < |s| && !IsDigit(s[i]) && s[i] !in "+-"
    ensures SetString(s) == None
  {
    var unsigned := if s[0] in "+-" then s[1..] else s;
    assert s[0] in "+-" ==> unsigned[i - 1] == s[i];
  }

  /** Cut to length, the fraction loses the exponent, or keeps its mark and is no number. */
  lemma FractionWithSuffix(n: Numeral, decimals: nat)
    requires Valid(n) && n.point
    ensures FractionUnits(n.fraction + Suffix(n.exponent), decimals)
         == if Cuttable(n, decimals)
            then Some(ScaledFraction(DigitsValue(n.fraction), |n.fraction|, decimals)) else None
  {
    var f, suffix := n.fraction, Suffix(n.exponent);
    var k := |f|;
    hide ScaledFraction, DigitsValue, Suffix, SetString;
    FractionOfPlain(f, decimals);
    if n.exponent.None? {
      NoSuffix();
      assert f + "" == f;
    } else {
      SuffixHasMark(n.exponent.value);
      if k >= decimals {
        assert (f + suffix)[..decimals] == FitFraction(f, decimals);
      } else {
        var fitted := FitFraction(f + suffix, decimals);
        assert fitted[k] == suffix[0];
        NotANumber(fitted, k);
      }
    }
  }

  lemma WholeWithSuffix(n: Numeral)
    requires Valid(n)
    ensures SetString(n.whole) == Some(DigitsValue(n.whole))
    ensures SetString(n.whole + Suffix(n.exponent))
         == if n.exponent.None? then Some(DigitsValue(n.whole)) else None
  {
    hide DigitsValue, Suffix;
    SetStringOfDigits(n.whole);
    if n.exponent.None? {
      NoSuffix();
      assert n.whole + "" == n.whole;
    } else {
      SuffixHasMark(n.exponent.value);
      var s := n.whole + Suffix(n.exponent);
      assert s[|n.whole|] == Suffix(n.exponent)[0];
      NotANumber(s, |n.whole|);
    }
  }

  /** parseUnits refuses a text with a part that is no number. */
  lemma UnitsRefused(value: string, decimals: int, whole: string, fraction: string)
    requires Split(TrimSpace(value)) == [whole] || Split(TrimSpace(value)) == [whole, fraction]
    requires 0 <= decimals <= 30 && whole != ""
    requires SetString(whole) == None
             || (Split(TrimSpace(value)) == [whole, fraction] && FractionUnits(fraction, decimals) == None)
    ensures Units(value, decimals) == Err("amount invalido")
  {
    hide Split, SetString, FractionUnits, TrimSpace, Pow10;
  }

  /** The whole part and the fraction in units. */
  function Joined(whole: int, decimals: nat, fraction: int): int {
    whole * Pow10(decimals) + fraction
  }

  lemma UnitsJoined(value: string, decimals: int, whole: string, fraction: string, w: int, f: int)
    requires Split(TrimSpace(value)) == [whole, fraction] && whole != "" && 0 <= decimals <= 30
    requires SetString(whole) == Some(w) && FractionUnits(fraction, decimals) == Some(f)
    ensures Units(value, decimals) == Ok(Joined(w, decimals, f))
  {
    hide Split, SetString, FractionUnits, TrimSpace, Pow10, Units;
    UnitsFromParts(value, decimals, whole, fraction, w, f);
  }

  lemma UnitsWholeJoined(value: string, decimals: int, whole: string, w: int)
    requires Split(TrimSpace(value)) == [whole] && whole != "" && 0 <= decimals <= 30
    requires SetString(whole) == Some(w)
    ensures Units(value, decimals) == Ok(Joined(w, decimals, 0))
  {
    hide Split, SetString, TrimSpace, Pow10, Units;
    UnitsFromWhole(value, decimals, whole, w);
  }

  lemma JoinedIsFloor(n: Numeral, decimals: nat)
    requires Valid(n)
    ensures Joined(DigitsValue(n.whole), decimals, ScaledFraction(DigitsValue(n.fraction), |n.fraction|, decimals))
         == ScaledSignificand(n, decimals).Floor
  {
    hide DigitsValue, Pow10, ScaledFraction, ScaledSignificand;
    PartsAreFloor(n, decimals);
  }

  lemma WholeJoinedIsFloor(n: Numeral, decimals: nat)
    requires Valid(n) && n.fraction == ""
    ensures Joined(DigitsValue(n.whole), decimals, 0) == ScaledSignificand(n, decimals).Floor
  {
    hide DigitsValue, Pow10, ScaledSignificand;
    WholeIsFloor(n, decimals);
  }

  lemma UnitsWithPoint(value: string, n: Numeral, decimals: int)
    requires Valid(n) && n.point && TrimSpace(value) == Spelled(n) && 0 <= decimals <= 30
    ensures Units(value, decimals)
         == if Cuttable(n, decimals) then Ok(ScaledSignificand(n, decimals).Floor) else Err("amount invalido")
  {
    assert n.whole != "";
    hide *;
    SpelledSplits(n);
    WholeWithSuffix(n);
    FractionWithSuffix(n, decimals);
    var fraction := n.fraction + Suffix(n.exponent);
    if Cuttable(n, decimals) {
      JoinedIsFloor(n, decimals);
      UnitsJoined(value, decimals, n.whole, fraction, DigitsValue(n.whole),
                  ScaledFraction(DigitsValue(n.fraction), |n.fraction|, decimals));
    } else {
      UnitsRefused(value, decimals, n.whole, fraction);
    }
  }

  lemma UnitsWithoutPoint(value: string, n: Numeral, decimals: int)
    requires Valid(n) && !n.point && TrimSpace(value) == Spelled(n) && 0 <= decimals <= 30
    ensures Units(value, decimals)
         == if n.exponent.None? then Ok(ScaledSignificand(n, decimals).Floor) else Err("amount invalido")
  {
    assert n.whole != "" && n.fraction == "";
    hide *;
    SpelledSplits(n);
    WholeWithSuffix(n);
    var whole := n.whole + Suffix(n.exponent);
    if n.exponent.None? {
      WholeJoinedIsFloor(n, decimals);
      UnitsWholeJoined(value, decimals, whole, DigitsValue(n.whole));
    } else {
      UnitsRefused(value, decimals, whole, "");
    }
  }

  /** Main result: a numeral, with spaces around it or not, is refused when its exponent is
      not cut off whole; otherwise the units are its significand times 10^decimals, rounded
      down, whatever the exponent says. */
  lemma UnitsOfNumeral(value: string, n: Numeral, decimals: int)
    requires Valid(n) && TrimSpace(value) == Spelled(n) && 0 <= decimals <= 30
    ensures Units(value, decimals)
         == if Cuttable(n, decimals) then Ok(ScaledSignificand(n, decimals).Floor) else Err("amount invalido")
  {
    hide Valid, Spelled, TrimSpace, Units, ScaledSignificand;
    if n.point {
      UnitsWithPoint(value, n, decimals);
    } else {
      UnitsWithoutPoint(value, n, decimals);
    }
  }

  /** A plain decimal is a numeral without an exponent. */
  lemma PlainIsNumeral(s: string) returns (n: Numeral)
    requires PlainDecimal(s)
    ensures Valid(n) && n.exponent.None? && Spelled(n) == s && NumberOf(n) == Value(s)
  {
    PlainHasDigits(s);
    PartsJoin(s);
    n := Numeral(WholePart(s), DotAt(s) < |s|, FractionPart(s), None);
    hide DigitsValue, WholePart, FractionPart, DotAt, AllDigits;
    NoSuffix();
    assert n.whole + "" == n.whole && n.fraction + "" == n.fraction;
    assert Power(0) == 1.0;
  }

  // ---- units against the number -----------------------------------------------------------

  lemma PowerSmall(x: int)
    ensures x >= 0 ==> Power(x) >= 1.0
    ensures x < 0 ==> Power(x) <= 0.1
  {
    if x < 0 {
      var p := Pow10(-x - 1);
      assert Pow10(-x) == 10 * p;
      var q := Pow10(-x) as real;
      assert 1.0 / q * q == 1.0;
      assert q >= 10.0;
      OneOver(q, 1.0 / q);
    }
  }

  lemma OneOver(q: real, y: real)
    requires q >= 10.0 && y * q == 1.0
    ensures y <= 0.1
  {
    assert y > 0.1 ==> y * q > 0.1 * q;
  }

  lemma GrowsWith(x: real, p: real)
    requires x >= 0.0 && p >= 1.0
    ensures x <= x * p
  {
  }

  lemma ShrinksWith(x: real, p: real)
    requires x >= 1.0 && 0.0 < p <= 0.1
    ensures x * p < x.Floor as real
  {
    assert x * p <= x * 0.1;
    assert x.Floor >= 1 && x < x.Floor as real + 1.0;
  }

  lemma ScaleReorder(m: real, p: real, t: real)
    ensures m * p * t == m * t * p
  {
  }

  /** The units stay within the number exactly when the exponent is not negative, or there
      are none. */
  lemma UnitsWithinNumberIff(n: Numeral, decimals: nat)
    requires Valid(n)
    ensures var units := ScaledSignificand(n, decimals).Floor;
            units as real <= NumberOf(n) * Pow10(decimals) as real <==> PowerOf(n) >= 0 || units == 0
  {
    hide Significand, Power, Pow10, PowerOf;
    var x, p, t := ScaledSignificand(n, decimals), Power(PowerOf(n)), Pow10(decimals) as real;
    ScaleReorder(Significand(n), p, t);
    NotNegative(Significand(n), t);
    PowerSmall(PowerOf(n));
    FloorAgainst(x, p, PowerOf(n) >= 0);
  }

  lemma NotNegative(m: real, t: real)
    requires m >= 0.0 && t >= 0.0
    ensures m * t >= 0.0
  {
  }

  lemma FloorAgainst(x: real, p: real, grows: bool)
    requires x >= 0.0 && if grows then p >= 1.0 else 0.0 < p <= 0.1
    ensures x.Floor as real <= x * p <==> grows || x.Floor == 0
  {
    if grows {
      GrowsWith(x, p);
    } else if x >= 1.0 {
      ShrinksWith(x, p);
    } else {
      NotNegative(x, p);
    }
  }

  /** What the units of a numeral are worth: units over 10^decimals. */
  function Worth(units: int, decimals: nat): real {
    units as real / Pow10(decimals) as real
  }

  lemma WorthAtMost(units: int, decimals: nat, v: real)
    ensures Worth(units, decimals) <= v <==> units as real <= v * Pow10(decimals) as real
  {
    var q := Pow10(decimals) as real;
    var y := units as real / q;
    assert y * q == units as real;
    MulOrder(y, v, q);
  }

  lemma UnitsNotNegative(n: Numeral, decimals: nat)
    requires Valid(n)
    ensures ScaledSignificand(n, decimals).Floor >= 0
  {
    hide Significand, Pow10;
    NotNegative(Significand(n), Pow10(decimals) as real);
  }

  /** What a numeral's units are worth is at most its number exactly when its exponent is not
      negative or it has no unit, and at most zero exactly in the latter case. */
  lemma WorthIff(n: Numeral, decimals: nat)
    requires Valid(n)
    ensures var units := ScaledSignificand(n, decimals).Floor;
            (Worth(units, decimals) <= NumberOf(n) <==> PowerOf(n) >= 0 || units == 0)
            && (Worth(units, decimals) <= 0.0 <==> units == 0)
  {
    hide ScaledSignificand, NumberOf, PowerOf, Worth, Pow10;
    var units := ScaledSignificand(n, decimals).Floor;
    UnitsNotNegative(n, decimals);
    UnitsWithinNumberIff(n, decimals);
    WorthAtMost(units, decimals, NumberOf(n));
    WorthAtMost(units, decimals, 0.0);
  }

  lemma MulOrder(a: real, b: real, q: real)
    requires q > 0.0
    ensures a <= b <==> a * q <= b * q
  {
    assert (b - a) * q == b * q - a * q;
    assert b - a >= 0.0 ==> (b - a) * q >= 0.0;
    assert b - a < 0.0 ==> (b - a) * q < 0.0;
  }

  // ---- negative numbers ----------------------------------------------------------------------

  lemma NegatedFloor(whole: int, x: real)
    requires x >= 0.0
    ensures (-(whole as real) - x).Floor == -whole + x.Floor <==> x == 0.0
  {
  }

  /** The number "-w.f" stands for. */
  function SignedValue(w: string, f: string): real
    requires AllDigits(w) && AllDigits(f)
  {
    -(DigitsValue(w) as real) - DigitsValue(f) as real / Pow10(|f|) as real
  }

  function ScaledFloor(v: real, decimals: nat): int {
    (v * Pow10(decimals) as real).Floor
  }

  function SignedUnits(w: string, f: string, decimals: nat): int
    requires AllDigits(w) && AllDigits(f)
  {
    -(DigitsValue(w) * Pow10(decimals)) + ScaledFraction(DigitsValue(f), |f|, decimals)
  }

  lemma SignedUnitsIff(w: string, f: string, decimals: nat)
    requires AllDigits(w) && AllDigits(f)
    ensures SignedUnits(w, f, decimals) == ScaledFloor(SignedValue(w, f), decimals) <==> DigitsValue(f) == 0
  {
    hide DigitsValue, Pow10, ScaledFraction, AllDigits;
    FractionIsFloor(f, decimals);
    SignedArithmetic(DigitsValue(w), DigitsValue(f), Pow10(|f|) as real, Pow10(decimals),
                     ScaledFraction(DigitsValue(f), |f|, decimals));
  }

  lemma UnitsOfSigned(w: string, f: string, decimals: int)
    requires Digits(w) && Digits(f) && 0 <= decimals <= 30
    ensures Units("-" + w + "." + f, decimals) == Ok(SignedUnits(w, f, decimals))
  {
    assert AllDigits(w) && AllDigits(f);
    hide Units, DigitsValue, Pow10, ScaledFraction, AllDigits, Digits;
    SignedAddsFraction(w, f, decimals);
  }

  /** With a minus sign and a fraction the floor law holds if and only if the fraction is
      zero: it is added to the negative whole part and not taken from it. */
  lemma SignedFloorIff(w: string, f: string, decimals: int)
    requires Digits(w) && Digits(f) && 0 <= decimals <= 30
    ensures Units("-" + w + "." + f, decimals) == Ok(ScaledFloor(SignedValue(w, f), decimals)) <==> DigitsValue(f) == 0
  {
    assert AllDigits(w) && AllDigits(f);
    hide *;
    UnitsOfSigned(w, f, decimals);
    SignedUnitsIff(w, f, decimals);
  }

  lemma SignedArithmetic(a: nat, b: nat, q: real, t: nat, scaled: int)
    requires q > 0.0 && t > 0 && scaled == (b as real / q * t as real).Floor
    ensures -(a * t) + scaled == ((-(a as real) - b as real / q) * t as real).Floor <==> b == 0
  {
    var y := b as real / q;
    NegatedScaled(a, y, t);
    ZeroFraction(b, q, t as real);
    NegatedFloor(a * t, y * t as real);
  }

  lemma FractionIsFloor(f: string, decimals: nat)
    requires AllDigits(f)
    ensures ScaledFraction(DigitsValue(f), |f|, decimals)
         == (DigitsValue(f) as real / Pow10(|f|) as real * Pow10(decimals) as real).Floor
  {
    ZeroDigit();
    hide Pow10, ScaledFraction, DigitsValue;
    var zero := Numeral("0", true, f, None);
    PartsAreFloor(zero, decimals);
    assert Significand(zero) == DigitsValue(f) as real / Pow10(|f|) as real;
  }

  lemma ZeroDigit()
    ensures Digits("0") && DigitsValue("0") == 0
  {
    assert "0"[..0] == "";
  }

  lemma NegatedScaled(a: nat, y: real, t: nat)
    ensures (-(a as real) - y) * t as real == -((a * t) as real) - y * t as real
  {
    assert (a * t) as real == a as real * t as real;
  }

  lemma ZeroFraction(b: nat, q: real, t: real)
    requires q > 0.0 && t > 0.0
    ensures 0.0 <= b as real / q && 0.0 <= b as real / q * t
    ensures b as real / q * t == 0.0 <==> b == 0
  {
    var y := b as real / q;
    assert y * q == b as real;
    assert b > 0 ==> y > 0.0;
    assert y > 0.0 ==> y * t > 0.0;
  }

  /** The spellings strconv.ParseFloat reads as NaN. */
  predicate SpellsNaN(s: string) {
    |s| == 3 && s[0] in "nN" && s[1] in "aA" && s[2] in "nN"
  }

  /** parseUnits refuses them. */
  lemma NaNHasNoUnits(value: string, decimals: int)
    requires SpellsNaN(TrimSpace(value))
    ensures Units(value, decimals).Err?
  {
    var s := TrimSpace(value);
    DotAtJoin(s, "");
    assert Split(s) == [s];
    NotANumber(s, 0);
  }

  // ---- numerals as small as wanted that send as much as wanted ------------------------------

  /** A number in digits. */
  function DigitsOf(n: nat): (s: string)
    ensures Digits(s)
  {
    var last := [('0' as int + n % 10) as char];
    if n < 10 then last else DigitsOf(n / 10) + last
  }

  lemma {:induction false} DigitsOfValue(n: nat)
    ensures DigitsValue(DigitsOf(n)) == n
  {
    var last := [('0' as int + n % 10) as char];
    assert last[..0] == "" && IsDigit(last[0]);
    if n >= 10 {
      DigitsOfValue(n / 10);
      var s := DigitsOf(n);
      assert s[..|s| - 1] == DigitsOf(n / 10) && s[|s| - 1] == last[0];
    }
  }

  lemma {:induction false} Pow10Exceeds(k: nat)
    ensures Pow10(k) > k
  {
    if k > 0 {
      Pow10Exceeds(k - 1);
    }
  }

  /** 10^k times 10^-(k + j), written out, with as many zeros after the point as asked for. */
  function TinyNumeral(k: nat, j: nat, zeros: nat): (n: Numeral)
    ensures Valid(n)
  {
    Numeral("1" + Zeros(k), true, Zeros(zeros), Some(Exponent('e', "-", DigitsOf(k + j))))
  }

  lemma OneAndZeros(k: nat)
    ensures DigitsValue("1" + Zeros(k)) == Pow10(k)
  {
    assert "1"[..0] == "";
    assert DigitsValue("1") == 1;
    PaddedValue("1", k);
  }

  lemma ZerosValue(zeros: nat)
    ensures DigitsValue(Zeros(zeros)) == 0
  {
    NoDigits();
    PaddedValue("", zeros);
    assert "" + Zeros(zeros) == Zeros(zeros);
  }

  lemma TinySignificand(k: nat, j: nat, zeros: nat)
    ensures Significand(TinyNumeral(k, j, zeros)) == Pow10(k) as real
    ensures PowerOf(TinyNumeral(k, j, zeros)) == 0 - (k + j)
  {
    hide DigitsValue, Pow10;
    OneAndZeros(k);
    ZerosValue(zeros);
    DigitsOfValue(k + j);
  }

  lemma Quotient(a: real, b: real, c: real)
    requires b > 0.0 && c > 0.0 && a == b * c
    ensures b * (1.0 / a) == 1.0 / c
  {
    var x := 1.0 / a;
    assert x * a == 1.0;
    assert b * x * c == x * (b * c);
    RealQuotient(b * x, c, 1.0);
  }

  lemma NegativePower(x: nat)
    requires x > 0
    ensures Power(0 - x) == 1.0 / Pow10(x) as real
  {
    hide Pow10;
  }

  lemma InverseOfProduct(p: nat, q: nat, r: nat)
    requires p > 0 && q > 0 && r == p * q
    ensures r > 0 && p as real * (1.0 / r as real) == 1.0 / q as real
  {
    assert r as real == p as real * q as real;
    Quotient(r as real, p as real, q as real);
  }

  lemma TinyNumber(k: nat, j: nat, zeros: nat)
    requires k + j > 0
    ensures NumberOf(TinyNumeral(k, j, zeros)) == 1.0 / Pow10(j) as real
  {
    hide Significand, PowerOf, Power, Pow10, TinyNumeral, Valid;
    TinySignificand(k, j, zeros);
    Pow10Adds(k, j);
    NegativePower(k + j);
    InverseOfProduct(Pow10(k), Pow10(j), Pow10(k + j));
  }

  /** What it is worth: 10^k, however small the number. */
  lemma TinyWorth(value: string, k: nat, j: nat, decimals: int)
    requires 0 <= decimals <= 30 && value == Spelled(TinyNumeral(k, j, decimals))
    ensures Units(value, decimals).Ok? && Worth(Units(value, decimals).value, decimals) == Pow10(k) as real
  {
    var n := TinyNumeral(k, j, decimals);
    assert Cuttable(n, decimals);
    hide Units, Spelled, ScaledSignificand, Worth, Pow10, Valid, TinyNumeral, Cuttable;
    SpelledEnds(n);
    UnitsOfNumeral(value, n, decimals);
    TinyScaled(k, j, decimals);
  }

  lemma TinyScaled(k: nat, j: nat, decimals: nat)
    ensures Worth(ScaledSignificand(TinyNumeral(k, j, decimals), decimals).Floor, decimals) == Pow10(k) as real
  {
    hide Significand, Pow10, TinyNumeral, PowerOf;
    TinySignificand(k, j, decimals);
    var x := ScaledSignificand(TinyNumeral(k, j, decimals), decimals);
    assert x == Pow10(k) as real * Pow10(decimals) as real;
    WholeWorth(Pow10(k), Pow10(decimals), x);
  }

  lemma WholeWorth(p: nat, t: nat, x: real)
    requires t > 0 && x == p as real * t as real
    ensures x.Floor as real / t as real == p as real
  {
    assert x == (p * t) as real;
    RealQuotient(p as real, t as real, (p * t) as real);
  }

  /** Some power of ten lies beyond any bound, and its inverse below any positive number. */
  lemma PowerBeyond(bound: real, small: real) returns (k: nat, j: nat)
    requires small > 0.0
    ensures k > 0 && Pow10(k) as real > bound && 1.0 / Pow10(j) as real <= small
  {
    k := if bound < 1.0 then 1 else bound.Floor + 1;
    Pow10Exceeds(k);
    j := (1.0 / small).Floor + 1;
    Pow10Exceeds(j);
    hide Pow10;
    Inverse(Pow10(j) as real, small);
  }

  lemma Inverse(p: real, small: real)
    requires p > 0.0 && small > 0.0 && p > 1.0 / small
    ensures 1.0 / p <= small
  {
    var x, y := 1.0 / small, 1.0 / p;
    assert x * small == 1.0 && y * p == 1.0;
    assert p * small > x * small;
    assert y > small ==> y * p > small * p;
  }
}

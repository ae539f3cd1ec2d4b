/** The price of a call in atomic units of USDC and as a dollar string. */
module Price {
  import opened Common
  import opened Text
  import opened Numerals

  const UNITS_PER_USD: nat := 1_000_000

  /** What `Number` makes of a text that is not a plain decimal: exponents, signs, hexadecimal and
      so on, `None` standing for NaN and the infinities. */
  type OtherNumerals = string -> Option<real>

  /** The value of the digits after a decimal point. */
  function FractionValue(s: string): real {
    if s == "" then 0.0 else (DigitOf(s[0]) as real + FractionValue(s[1..])) / 10.0
  }

  /** Digits, then perhaps a point and more digits, with a digit somewhere. */
  predicate IsPlainDecimal(s: string) {
    var i := IndexOf(s, '.');
    AllDigits(s[..i], 10) && (i < |s| ==> AllDigits(s[i + 1..], 10)) && (i > 0 || i + 1 < |s|)
  }

  function PlainValue(s: string): real {
    var i := IndexOf(s, '.');
    Value(s[..i], 10) as real + (if i < |s| then FractionValue(s[i + 1..]) else 0.0)
  }

  function ReadNumber(s: string, other: OtherNumerals): Option<real> {
    var t := Trim(s);
    if t == "" then Some(0.0) else if IsPlainDecimal(t) then Some(PlainValue(t)) else other(t)
  }

  function DropDollar(s: string): string {
    if s != "" && s[0] == '$' then s[1..] else s
  }

  /** `None` where the source throws. */
  function ParsePrice(usd: string, other: OtherNumerals): Option<real> {
    match ReadNumber(DropDollar(Trim(usd)), other)
    case None => None
    case Some(n) => if n <= 0.0 then None else Some(n)
  }

  function AtomicUnits(usd: string, other: OtherNumerals): Option<int> {
    match ParsePrice(usd, other)
    case None => None
    case Some(n) => Some((n * UNITS_PER_USD as real + 0.5).Floor)
  }

  /** `(units / 1000000).toFixed(6)`. */
  function ToFixed6(units: nat): string {
    assert Pow10(6) == UNITS_PER_USD;
    Digits(units / UNITS_PER_USD, 10) + "." + FixedDigits(units % UNITS_PER_USD, 6)
  }

  function StripZeros(s: string): string {
    if s != "" && s[|s| - 1] == '0' then StripZeros(s[..|s| - 1]) else s
  }

  function StripPoint(s: string): string {
    if s != "" && s[|s| - 1] == '.' then s[..|s| - 1] else s
  }

  function PriceText(units: nat): string {
    "$" + StripPoint(StripZeros(ToFixed6(units)))
  }

  lemma UnitsNotNegative(usd: string, other: OtherNumerals)
    ensures AtomicUnits(usd, other).Some? ==> AtomicUnits(usd, other).value >= 0
  {
  }

  function PriceString(usd: string, other: OtherNumerals): Option<string> {
    match AtomicUnits(usd, other)
    case None => None
    case Some(units) => UnitsNotNegative(usd, other); Some(PriceText(units))
  }

  // ----- The rendered text -----

  /** The digits `s` after the point are `f` parts out of `p`. */
  ghost predicate Spells(s: string, f: nat, p: nat) {
    FractionValue(s) * p as real == f as real
  }

  lemma FractionCons(d: nat, tail: string)
    requires d < 10
    ensures FractionValue([DigitChar(d)] + tail) == (d as real + FractionValue(tail)) / 10.0
  {
    DigitOfChar(d);
    assert ([DigitChar(d)] + tail)[1..] == tail;
  }

  lemma FractionStep(f: nat, p: nat, v: real)
    requires p > 0 && v * p as real == (f % p) as real
    ensures ((f / p) as real + v) / 10.0 * (10 * p) as real == f as real
  {
    var d := f / p;
    assert f == d * p + f % p;
    assert (d as real + v) / 10.0 * (10 * p) as real == (d as real + v) * p as real;
    assert (d as real + v) * p as real == d as real * p as real + v * p as real;
  }

  lemma SpellsMore(f: nat, p: nat, tail: string)
    requires p > 0 && f < 10 * p && Spells(tail, f % p, p)
    ensures f / p < 10 && Spells([DigitChar(f / p)] + tail, f, 10 * p)
  {
    hide FractionValue, DigitChar;
    TopDigit(f, p);
    FractionCons(f / p, tail);
    FractionStep(f, p, FractionValue(tail));
  }

  lemma {:induction false} FixedDigitsValue(f: nat, k: nat)
    requires f < Pow10(k)
    ensures Spells(FixedDigits(f, k), f, Pow10(k))
    decreases k
  {
    hide DigitOf, DigitChar, Spells;
    if k > 0 {
      FixedDigitsValue(f % Pow10(k - 1), k - 1);
      SpellsMore(f, Pow10(k - 1), FixedDigits(f % Pow10(k - 1), k - 1));
    } else {
      EmptySpellsZero();
    }
  }

  lemma EmptySpellsZero()
    ensures Spells("", 0, 1)
  {
  }

  lemma {:induction false} FractionZero(s: string)
    ensures FractionValue(s + "0") == FractionValue(s)
  {
    if s == "" {
      assert "0"[1..] == "" && s + "0" == "0";
    } else {
      assert (s + "0")[1..] == s[1..] + "0";
      FractionZero(s[1..]);
    }
  }

  /** Trailing zeros add nothing to a fraction. */
  lemma {:induction false} StripKeepsFraction(s: string)
    ensures FractionValue(StripZeros(s)) == FractionValue(s)
    ensures forall c :: c in StripZeros(s) ==> c in s
    ensures StripZeros(s) != "" ==> StripZeros(s)[|StripZeros(s)| - 1] != '0'
  {
    if s != "" && s[|s| - 1] == '0' {
      var t := s[..|s| - 1];
      assert s == t + "0";
      FractionZero(t);
      StripKeepsFraction(t);
    }
  }

  lemma {:induction false} StripBehind(a: string, b: string)
    ensures StripZeros(a + b) == (if StripZeros(b) == "" then StripZeros(a) else a + StripZeros(b))
    decreases |b|
  {
    if b == "" {
      assert a + b == a;
    } else if b[|b| - 1] == '0' {
      assert (a + b)[..|a + b| - 1] == a + b[..|b| - 1];
      StripBehind(a, b[..|b| - 1]);
    }
  }

  lemma PointStripped(whole: string, fraction: string)
    requires fraction == "" || fraction[|fraction| - 1] != '.'
    ensures StripPoint(whole + "." + fraction) == if fraction == "" then whole else whole + "." + fraction
  {
    var s := whole + "." + fraction;
    if fraction == "" {
      assert s[|s| - 1] == '.' && s[..|s| - 1] == whole;
    } else {
      assert s[|s| - 1] == fraction[|fraction| - 1];
    }
  }

  lemma NoPoint(s: string)
    requires AllDigits(s, 10)
    ensures StripZeros(s) != "" ==> StripZeros(s)[|StripZeros(s)| - 1] != '.'
  {
    StripKeepsFraction(s);
    hide StripZeros;
    if StripZeros(s) != "" {
      assert StripZeros(s)[|StripZeros(s)| - 1] in StripZeros(s);
    }
  }

  lemma Stripped(whole: string, fixed: string)
    requires AllDigits(fixed, 10)
    ensures StripPoint(StripZeros(whole + "." + fixed))
         == (if StripZeros(fixed) == "" then whole else whole + "." + StripZeros(fixed))
  {
    NoPoint(fixed);
    hide StripZeros, StripPoint, AllDigits;
    StripBehind(whole + ".", fixed);
    assert (whole + ".")[|whole + "."| - 1] == '.' && whole + "." + "" == whole + ".";
    StripStops(whole + ".");
    PointStripped(whole, StripZeros(fixed));
  }

  lemma SixDigits()
    ensures Pow10(6) == UNITS_PER_USD
  {
  }

  /** The text after the dollar sign: whole dollars, then a point and a fraction only if there is one. */
  lemma TextParts(units: nat)
    ensures Pow10(6) == UNITS_PER_USD
    ensures var whole := Digits(units / UNITS_PER_USD, 10);
            var fraction := StripZeros(FixedDigits(units % UNITS_PER_USD, 6));
            PriceText(units) == "$" + (if fraction == "" then whole else whole + "." + fraction)
  {
    hide Digits, FixedDigits, StripZeros, StripPoint, Pow10, AllDigits;
    SixDigits();
    FixedDigitsAreDigits(units % UNITS_PER_USD, 6);
    Stripped(Digits(units / UNITS_PER_USD, 10), FixedDigits(units % UNITS_PER_USD, 6));
  }

  lemma StripStops(s: string)
    requires s == "" || s[|s| - 1] != '0'
    ensures StripZeros(s) == s
  {
  }

  lemma NoSpaceToTrim(s: string)
    requires s != "" && !IsSpace(s[0]) && !IsSpace(s[|s| - 1])
    ensures Trim(s) == s
  {
  }

  lemma DigitNotSpace(c: char)
    requires DigitOf(c) < 10
    ensures !IsSpace(c) && c != '.' && c != '$'
  {
  }

  /** The value that `PlainValue` reads from the parts of a decimal. */
  lemma ReadParts(whole: string, fraction: string, other: OtherNumerals)
    requires whole != "" && AllDigits(whole, 10) && AllDigits(fraction, 10)
    ensures var s := if fraction == "" then whole else whole + "." + fraction;
            ReadNumber(s, other) == Some(Value(whole, 10) as real + FractionValue(fraction))
  {
    var s := if fraction == "" then whole else whole + "." + fraction;
    hide Value, FractionValue, IsSpace, DigitOf;
    DigitNotSpace(whole[0]);
    assert DigitOf(s[|s| - 1]) < 10 by {
      assert fraction == "" ==> s[|s| - 1] in whole;
      assert fraction != "" ==> s[|s| - 1] in fraction;
    }
    DigitNotSpace(s[|s| - 1]);
    NoSpaceToTrim(s);
    hide Trim;
    assert '.' !in whole by {
      if '.' in whole {
        DigitNotSpace('.');
      }
    }
    if fraction == "" {
      IndexOfNone(whole, '.');
      assert s[..|s|] == s;
      assert FractionValue("") == 0.0 by {
        EmptyFraction();
      }
    } else {
      IndexOfPrefix(whole, '.', fraction);
      assert s[..|whole|] == whole && s[|whole| + 1..] == fraction;
    }
  }

  lemma EmptyFraction()
    ensures FractionValue("") == 0.0
  {
  }

  lemma WholeAndFraction(units: nat, v: real)
    requires v * UNITS_PER_USD as real == (units % UNITS_PER_USD) as real
    ensures ((units / UNITS_PER_USD) as real + v) * UNITS_PER_USD as real == units as real
  {
    assert units == units / UNITS_PER_USD * UNITS_PER_USD + units % UNITS_PER_USD;
  }

  /** The rendered price is a dollar sign, whole dollars and a fraction that does not end in zero. */
  ghost predicate Rendered(text: string, units: nat, whole: string, fraction: string) {
    && text == "$" + (if fraction == "" then whole else whole + "." + fraction)
    && whole != "" && AllDigits(whole, 10) && AllDigits(fraction, 10)
    && (fraction != "" ==> fraction[|fraction| - 1] != '0')
    && (Value(whole, 10) as real + FractionValue(fraction)) * UNITS_PER_USD as real == units as real
  }

  lemma StripKeepsDigits(s: string)
    requires AllDigits(s, 10)
    ensures AllDigits(StripZeros(s), 10)
  {
    StripKeepsFraction(s);
  }

  lemma TextIsRendered(units: nat) returns (whole: string, fraction: string)
    ensures Rendered(PriceText(units), units, whole, fraction)
  {
    hide Digits, FixedDigits, StripZeros, FractionValue, PriceText, Value, AllDigits;
    TextParts(units);
    var dollars, f := units / UNITS_PER_USD, units % UNITS_PER_USD;
    var fixed := FixedDigits(f, 6);
    whole, fraction := Digits(dollars, 10), StripZeros(fixed);
    DigitsAreDigits(dollars, 10);
    ReadDigits(dollars, 10);
    FixedDigitsAreDigits(f, 6);
    FixedDigitsValue(f, 6);
    StripKeepsFraction(fixed);
    StripKeepsDigits(fixed);
    WholeAndFraction(units, FractionValue(fixed));
  }

  /** No trailing fractional zero and no trailing point. */
  lemma NothingToStrip(units: nat)
    ensures var s := PriceText(units);
            (|s| >= 2 && s[0] == '$' && DigitOf(s[|s| - 1]) < 10 && ('.' in s ==> s[|s| - 1] != '0'))
  {
    var s := PriceText(units);
    var whole, fraction := TextIsRendered(units);
    hide PriceText, IsSpace, FractionValue, Value, DigitOf;
    assert s[1] == whole[0];
    DigitNotSpace(whole[0]);
    if fraction == "" {
      assert s[|s| - 1] == whole[|whole| - 1] && whole[|whole| - 1] in whole;
      if '.' in s {
        assert '.' in whole;
        DigitNotSpace('.');
        assert false;
      }
    } else {
      assert s[|s| - 1] == fraction[|fraction| - 1] && fraction[|fraction| - 1] in fraction;
    }
  }

  lemma TextValue(units: nat, other: OtherNumerals) returns (v: real)
    ensures |PriceText(units)| >= 2 && ReadNumber(PriceText(units)[1..], other) == Some(v)
    ensures v * UNITS_PER_USD as real == units as real
  {
    var whole, fraction := TextIsRendered(units);
    hide Digits, FractionValue, PriceText, ReadNumber, Value, DigitOf, AllDigits;
    var s := if fraction == "" then whole else whole + "." + fraction;
    assert ("$" + s)[1..] == s;
    ReadParts(whole, fraction, other);
    v := Value(whole, 10) as real + FractionValue(fraction);
  }

  lemma RenderedParses(units: nat, other: OtherNumerals, v: real)
    requires |PriceText(units)| >= 2 && ReadNumber(PriceText(units)[1..], other) == Some(v)
    ensures ParsePrice(PriceText(units), other) == if v <= 0.0 then None else Some(v)
  {
    var s := PriceText(units);
    NothingToStrip(units);
    DigitNotSpace(s[|s| - 1]);
    DollarNotSpace();
    hide PriceText, ReadNumber, IsSpace, DigitOf;
    NoSpaceToTrim(s);
    hide Trim;
  }

  lemma DollarNotSpace()
    ensures !IsSpace('$')
  {
  }

  /** Reading a rendered price gives back exactly the units it was rendered from; zero is refused. */
  lemma ReadBack(units: nat, other: OtherNumerals)
    ensures AtomicUnits(PriceText(units), other) == (if units == 0 then None else Some(units))
  {
    hide PriceText, ReadNumber, ParsePrice;
    var v := TextValue(units, other);
    RenderedParses(units, other, v);
    SignOfAmount(units, v);
    HalfUp(units);
  }

  lemma SignOfAmount(units: nat, v: real)
    requires v * UNITS_PER_USD as real == units as real
    ensures v > 0.0 <==> units > 0
  {
  }

  lemma HalfUp(units: nat)
    ensures (units as real + 0.5).Floor == units
  {
  }

  /** Different amounts are rendered differently. */
  lemma TextDetermines(a: nat, b: nat)
    requires PriceText(a) == PriceText(b)
    ensures a == b
  {
    hide PriceText, AtomicUnits;
    ReadBack(a, (s: string) => None);
    ReadBack(b, (s: string) => None);
  }

  /** The amount is the nearest whole number of units, halves going up. */
  lemma {:induction false} NearestUnit(usd: string, other: OtherNumerals, n: real, units: nat)
    requires ParsePrice(usd, other) == Some(n)
    ensures AtomicUnits(usd, other) == Some(units)
       <==> units as real - 0.5 <= n * UNITS_PER_USD as real < units as real + 0.5
  {
    hide ParsePrice;
  }

  /** The challenge and the manifest agree, and rendering twice changes nothing, for every accepted price
      from half a unit up. A smaller positive price is rendered as "$0", which is refused. */
  lemma RenderingIsStable(usd: string, other: OtherNumerals, n: real)
    requires ParsePrice(usd, other) == Some(n)
    ensures PriceString(usd, other).Some?
    ensures var text := PriceString(usd, other).value;
            if n * UNITS_PER_USD as real >= 0.5
            then AtomicUnits(text, other) == AtomicUnits(usd, other) && PriceString(text, other) == Some(text)
            else text == "$0" && PriceString(text, other) == None
  {
    hide ParsePrice, PriceText, Trim, ReadNumber;
    UnitsNotNegative(usd, other);
    var units: nat := AtomicUnits(usd, other).value;
    ReadBack(units, other);
    if n * UNITS_PER_USD as real < 0.5 {
      assert units == 0;
      FreeText();
    }
  }

  lemma {:induction false} AllZerosStripped(k: nat)
    ensures FixedDigits(0, k) == Zeros(k) && StripZeros(Zeros(k)) == ""
  {
    if k > 0 {
      AllZerosStripped(k - 1);
      ZerosLast(k);
      hide Pow10;
    }
  }

  lemma {:induction false} ZerosLast(k: nat)
    requires k > 0
    ensures Zeros(k) == Zeros(k - 1) + "0"
  {
    if k > 1 {
      ZerosLast(k - 1);
    }
  }

  lemma FreeText()
    ensures PriceText(0) == "$0"
  {
    TextParts(0);
    AllZerosStripped(6);
    DigitsAreDigits(0, 10);
    hide PriceText, FixedDigits, StripZeros, Digits, Zeros;
  }
}

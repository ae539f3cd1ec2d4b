/** Writing and reading natural numbers in base 8, 10 or 16. */
module Numerals {

  predicate IsBase(base: nat) {
    base == 8 || base == 10 || base == 16
  }

  function DigitChar(d: nat): (c: char)
    requires d < 16
  {
    "0123456789abcdef"[d]
  }

  /** The digit a character stands for, or 16 if it is no hexadecimal digit. */
  function DigitOf(c: char): nat {
    if '0' <= c <= '9' then c as int - '0' as int
    else if 'a' <= c <= 'f' then c as int - 'a' as int + 10
    else if 'A' <= c <= 'F' then c as int - 'A' as int + 10
    else 16
  }

  predicate AllDigits(s: string, base: nat) {
    forall c :: c in s ==> DigitOf(c) < base
  }

  /** The number that `s` spells, reading on from `acc`. */
  function ReadFrom(acc: nat, s: string, base: nat): nat
    decreases |s|
  {
    if s == "" then acc else ReadFrom(acc * base + DigitOf(s[0]), s[1..], base)
  }

  function Value(s: string, base: nat): nat {
    ReadFrom(0, s, base)
  }

  /** The shortest numeral; zero is "0". */
  function Digits(n: nat, base: nat): (s: string)
    requires IsBase(base)
    ensures s != ""
    decreases n
  {
    if n < base then [DigitChar(n)] else Digits(n / base, base) + [DigitChar(n % base)]
  }

  lemma DigitOfChar(d: nat)
    requires d < 16
    ensures DigitOf(DigitChar(d)) == d
  {
    assert d == 0 || d == 1 || d == 2 || d == 3 || d == 4 || d == 5 || d == 6 || d == 7
        || d == 8 || d == 9 || d == 10 || d == 11 || d == 12 || d == 13 || d == 14 || d == 15;
  }

  lemma {:induction false} ReadConcat(acc: nat, a: string, b: string, base: nat)
    ensures ReadFrom(acc, a + b, base) == ReadFrom(ReadFrom(acc, a, base), b, base)
    decreases |a|
  {
    if a == "" {
      assert a + b == b;
    } else {
      assert (a + b)[1..] == a[1..] + b;
      ReadConcat(acc * base + DigitOf(a[0]), a[1..], b, base);
    }
  }

  lemma ReadLast(acc: nat, a: string, c: char, base: nat)
    ensures ReadFrom(acc, a + [c], base) == ReadFrom(acc, a, base) * base + DigitOf(c)
  {
    ReadConcat(acc, a, [c], base);
    assert [c][1..] == "";
    var read := ReadFrom(acc, a, base);
    assert ReadFrom(read, [c], base) == ReadFrom(read * base + DigitOf(c), "", base);
  }

  lemma {:induction false} DigitsAreDigits(n: nat, base: nat)
    requires IsBase(base)
    ensures AllDigits(Digits(n, base), base)
    ensures n > 0 ==> Digits(n, base)[0] != '0'
    ensures n == 0 ==> Digits(n, base) == "0"
    decreases n
  {
    if n < base {
      DigitOfChar(n);
    } else {
      DigitsAreDigits(n / base, base);
      DigitOfChar(n % base);
    }
  }

  /** Reading back what was written. */
  lemma {:induction false} ReadDigits(n: nat, base: nat)
    requires IsBase(base)
    ensures Value(Digits(n, base), base) == n
    decreases n
  {
    if n < base {
      DigitOfChar(n);
      assert [DigitChar(n)][1..] == "";
      assert ReadFrom(0, [DigitChar(n)], base) == ReadFrom(0 * base + DigitOf(DigitChar(n)), "", base);
    } else {
      ReadDigits(n / base, base);
      DigitOfChar(n % base);
      ReadLast(0, Digits(n / base, base), DigitChar(n % base), base);
      assert n == n / base * base + n % base;
    }
  }

  function Zeros(n: nat): (s: string)
    ensures |s| == n && forall c :: c in s ==> c == '0'
  {
    if n == 0 then "" else "0" + Zeros(n - 1)
  }

  lemma {:induction false} ReadZeros(n: nat, s: string, base: nat)
    ensures Value(Zeros(n) + s, base) == Value(s, base)
  {
    if n == 0 {
      assert Zeros(0) + s == s;
    } else {
      assert (Zeros(n) + s)[1..] == Zeros(n - 1) + s;
      assert (Zeros(n) + s)[0] == '0';
      ReadZeros(n - 1, s, base);
    }
  }

  // ----- A fixed number of digits -----

  function Pow10(k: nat): (p: nat)
    ensures p >= 1
  {
    if k == 0 then 1 else 10 * Pow10(k - 1)
  }

  /** `f` in exactly `k` decimal digits. */
  function FixedDigits(f: nat, k: nat): (s: string)
    requires f < Pow10(k)
    ensures |s| == k
    decreases k
  {
    if k == 0 then "" else [DigitChar(f / Pow10(k - 1))] + FixedDigits(f % Pow10(k - 1), k - 1)
  }

  lemma TopDigit(f: nat, p: nat)
    requires p > 0 && f < 10 * p
    ensures f / p < 10
  {
  }

  lemma FixedStep(f: nat, k: nat) returns (d: nat, rest: nat)
    requires k > 0 && f < Pow10(k)
    ensures d == f / Pow10(k - 1) && rest == f % Pow10(k - 1)
    ensures d < 10 && rest < Pow10(k - 1) && FixedDigits(f, k) == [DigitChar(d)] + FixedDigits(rest, k - 1)
  {
    d, rest := f / Pow10(k - 1), f % Pow10(k - 1);
    TopDigit(f, Pow10(k - 1));
    hide DigitChar;
  }

  lemma {:induction false} FixedDigitsAreDigits(f: nat, k: nat)
    requires f < Pow10(k)
    ensures AllDigits(FixedDigits(f, k), 10)
    decreases k
  {
    if k > 0 {
      hide FixedDigits, DigitChar, DigitOf, Pow10;
      var d, rest := FixedStep(f, k);
      DigitOfChar(d);
      FixedDigitsAreDigits(rest, k - 1);
    }
  }
}

/** Canonical time stamps, as `toISOString` writes them, and their order as text. */
module Stamps {
  import opened Common
  import opened Numerals
  import opened Ordering

  const MAX_TIME: int := 8_640_000_000_000_000

  const MS_PER_DAY: int := 86_400_000

  /** From the first day of the year 0 to that of 1970. */
  const EPOCH_DAY: int := 719_528

  /** The first millisecond of the year 0 and of the year 10000. */
  const YEAR_ZERO: int := -62_167_219_200_000
  const YEAR_TEN_THOUSAND: int := 253_402_300_800_000

  /** Milliseconds since 1970, as far as a date can hold them. */
  type Time = ms: int | -MAX_TIME <= ms <= MAX_TIME witness 0

  // ----- The calendar -----

  predicate IsLeap(y: int) {
    y % 4 == 0 && (y % 100 != 0 || y % 400 == 0)
  }

  /** Leap years from the year 0 up to, and not including, the year `y`. */
  function LeapYears(y: int): int {
    (y + 3) / 4 - (y + 99) / 100 + (y + 399) / 400
  }

  /** Days from the first day of the year 0 to that of the year `y`. */
  function FirstDay(y: int): int {
    365 * y + LeapYears(y)
  }

  /** One more multiple of `p` is passed right after each multiple of it. */
  lemma NextQuotient(y: int, p: int)
    requires p > 0
    ensures (y + p) / p == (y + p - 1) / p + if y % p == 0 then 1 else 0
  {
    var q, r := y / p, y % p;
    assert y == p * q + r && p * (q + 1) == p * q + p;
    DivisionUnique(y + p, p, q + 1, r);
    if r == 0 {
      DivisionUnique(y + p - 1, p, q, p - 1);
    } else {
      DivisionUnique(y + p - 1, p, q + 1, r - 1);
    }
  }

  lemma CenturyYears(y: int)
    ensures y % 400 == 0 ==> y % 100 == 0
    ensures y % 100 == 0 ==> y % 4 == 0
  {
    if y % 400 == 0 {
      DivisionUnique(y, 100, 4 * (y / 400), 0);
    }
    if y % 100 == 0 {
      DivisionUnique(y, 4, 25 * (y / 100), 0);
    }
  }

  lemma YearLength(y: int)
    ensures FirstDay(y + 1) == FirstDay(y) + if IsLeap(y) then 366 else 365
  {
    NextQuotient(y, 4);
    NextQuotient(y, 100);
    NextQuotient(y, 400);
    CenturyYears(y);
    LeapBefore(y);
    LeapBefore(y + 1);
    hide LeapYears;
  }

  lemma LeapBefore(y: int)
    ensures LeapYears(y) == (y + 4 - 1) / 4 - (y + 100 - 1) / 100 + (y + 400 - 1) / 400
    ensures LeapYears(y) == (y - 1 + 4) / 4 - (y - 1 + 100) / 100 + (y - 1 + 400) / 400
  {
  }

  lemma {:induction false} YearsAdvance(y: int, z: int)
    requires y <= z
    ensures 365 * (z - y) <= FirstDay(z) - FirstDay(y) <= 366 * (z - y)
    decreases z - y
  {
    if y < z {
      YearLength(z - 1);
      YearsAdvance(y, z - 1);
      hide FirstDay;
    }
  }

  function YearFrom(y: int, day: int): (r: int)
    requires FirstDay(y) <= day
    ensures FirstDay(r) <= day < FirstDay(r + 1)
    decreases day - FirstDay(y)
  {
    YearLength(y);
    if day < FirstDay(y + 1) then y else YearFrom(y + 1, day)
  }

  lemma YearZeroFirst()
    ensures FirstDay(0) == 0
  {
  }

  lemma EarlyYear(day: int)
    ensures FirstDay(if day >= 0 then day / 366 else day / 365) <= day
  {
    hide FirstDay;
    YearZeroFirst();
    if day >= 0 {
      YearsAdvance(0, day / 366);
      assert 366 * (day / 366) <= day;
    } else {
      YearsAdvance(day / 365, 0);
      assert 365 * (day / 365) <= day;
    }
  }

  /** The year that the day lies in. */
  function YearOf(day: int): (y: int)
    ensures FirstDay(y) <= day < FirstDay(y + 1)
  {
    EarlyYear(day);
    YearFrom(if day >= 0 then day / 366 else day / 365, day)
  }

  /** Days of the year before the month, the months counted from zero. */
  function MonthStart(m: nat, leap: bool): nat
    requires m <= 12
  {
    [0, 31, 59, 90, 120, 151, 181, 212, 243, 273, 304, 334, 365][m] + if leap && m >= 2 then 1 else 0
  }

  function MonthFrom(m: nat, d: nat, leap: bool): (r: nat)
    requires m < 12 && MonthStart(m, leap) <= d < MonthStart(12, leap)
    ensures r < 12 && MonthStart(r, leap) <= d < MonthStart(r + 1, leap)
    decreases 12 - m
  {
    if d < MonthStart(m + 1, leap) then m else MonthFrom(m + 1, d, leap)
  }

  lemma MonthLength(m: nat, leap: bool)
    requires m < 12
    ensures MonthStart(0, leap) == 0 && 28 <= MonthStart(m + 1, leap) - MonthStart(m, leap) <= 31
  {
  }

  /** The month, from zero, of the `d`-th day of a year, also from zero. */
  function MonthOf(d: nat, leap: bool): (m: nat)
    requires d < MonthStart(12, leap)
    ensures m < 12 && MonthStart(m, leap) <= d < MonthStart(m + 1, leap)
  {
    MonthLength(0, leap);
    MonthFrom(0, d, leap)
  }

  /** The day of the month, from one. */
  function DayOfMonth(d: nat, leap: bool): (i: nat)
    requires d < MonthStart(12, leap)
    ensures i < 100
  {
    MonthLength(MonthOf(d, leap), leap);
    d - MonthStart(MonthOf(d, leap), leap) + 1
  }

  // ----- The text -----

  function SecondText(ms: nat): (s: string)
    requires ms < 60_000
    ensures |s| == 8
  {
    Powers();
    [':'] + FixedDigits(ms / 1000, 2) + ['.'] + FixedDigits(ms % 1000, 3) + ['Z']
  }

  function MinuteText(ms: nat): (s: string)
    requires ms < 3_600_000
    ensures |s| == 11
  {
    Powers();
    [':'] + FixedDigits(ms / 60_000, 2) + SecondText(ms % 60_000)
  }

  function ClockText(ms: nat): (s: string)
    requires ms < MS_PER_DAY
    ensures |s| == 14
  {
    Powers();
    ['T'] + FixedDigits(ms / 3_600_000, 2) + MinuteText(ms % 3_600_000)
  }

  lemma Powers()
    ensures Pow10(2) == 100 && Pow10(3) == 1000 && Pow10(4) == 10_000 && Pow10(6) == 1_000_000
  {
  }

  /** From the month on: `d` days into a year. */
  function DateText(d: nat, leap: bool, clock: nat): (s: string)
    requires d < MonthStart(12, leap) && clock < MS_PER_DAY
  {
    Powers();
    ['-'] + FixedDigits(MonthOf(d, leap) + 1, 2) + (['-'] + FixedDigits(DayOfMonth(d, leap), 2) + ClockText(clock))
  }

  predicate IsYear(y: int) {
    -1_000_000 < y < 1_000_000
  }

  /** Four digits, or a sign and six. */
  function YearText(y: int): string
    requires IsYear(y)
  {
    Powers();
    if 0 <= y <= 9999 then FixedDigits(y, 4)
    else if y > 0 then ['+'] + FixedDigits(y, 6)
    else ['-'] + FixedDigits(-y, 6)
  }

  function DayOf(t: int): int {
    t / MS_PER_DAY + EPOCH_DAY
  }

  function Year(t: int): int {
    YearOf(DayOf(t))
  }

  lemma YearSize(leap: bool)
    ensures MonthStart(12, leap) == if leap then 366 else 365
  {
  }

  lemma DayRange(t: Time)
    ensures -100_000_000 <= DayOf(t) - EPOCH_DAY <= 100_000_000
  {
  }

  lemma YearInRange(t: Time)
    ensures IsYear(Year(t)) && 0 <= DayOf(t) - FirstDay(Year(t)) < MonthStart(12, IsLeap(Year(t)))
  {
    hide FirstDay, MonthStart, IsLeap, DayOf, YearOf;
    DayRange(t);
    var y := Year(t);
    YearLength(y);
    YearSize(IsLeap(y));
    YearZeroFirst();
    if y >= 0 {
      YearsAdvance(0, y);
    } else {
      YearsAdvance(y + 1, 0);
    }
  }

  /** `toISOString`. */
  function Iso(t: Time): string {
    YearInRange(t);
    var y := Year(t);
    YearText(y) + DateText(DayOf(t) - FirstDay(y), IsLeap(y), t % MS_PER_DAY)
  }

  /** The order of the stored texts. */
  predicate Earlier(a: Time, b: Time) {
    LexLess(Iso(a), Iso(b))
  }

  // ----- Fields of text -----

  lemma {:induction false} LexFields(a: string, x: string, b: string, y: string)
    requires |a| == |b|
    ensures LexLess(a + x, b + y) <==> LexLess(a, b) || (a == b && LexLess(x, y))
  {
    if a == "" {
      assert a + x == x && b + y == y;
    } else {
      assert (a + x)[0] == a[0] && (a + x)[1..] == a[1..] + x;
      assert (b + y)[0] == b[0] && (b + y)[1..] == b[1..] + y;
      LexFields(a[1..], x, b[1..], y);
      assert a == [a[0]] + a[1..] && b == [b[0]] + b[1..];
      assert a + x == [a[0]] + (a[1..] + x) && b + y == [b[0]] + (b[1..] + y);
    }
  }

  lemma LexOneChar(c: char, d: char)
    ensures LexLess([c], [d]) <==> c < d
    ensures [c] == [d] <==> c == d
  {
    assert [c][0] == c && [d][0] == d && [c][1..] == "" && [d][1..] == "";
  }

  lemma DigitCharOrder(a: nat, b: nat)
    requires a < 10 && b < 10
    ensures DigitChar(a) < DigitChar(b) <==> a < b
    ensures DigitChar(a) == DigitChar(b) <==> a == b
  {
    DigitIsPlain(a);
    DigitIsPlain(b);
  }

  lemma DigitIsPlain(d: nat)
    requires d < 10
    ensures DigitChar(d) as int == '0' as int + d
  {
    assert d == 0 || d == 1 || d == 2 || d == 3 || d == 4 || d == 5 || d == 6 || d == 7 || d == 8 || d == 9;
  }

  lemma SmallerQuotient(a: nat, b: nat, p: nat)
    requires p > 0 && a / p < b / p
    ensures a < b
  {
    NextMultiple(p, a / p, b / p);
    assert a == p * (a / p) + a % p && b == p * (b / p) + b % p;
  }

  lemma Radix(a: nat, b: nat, p: nat)
    requires p > 0
    ensures a < b <==> a / p < b / p || (a / p == b / p && a % p < b % p)
    ensures a == b <==> a / p == b / p && a % p == b % p
  {
    if a / p < b / p {
      SmallerQuotient(a, b, p);
    } else if b / p < a / p {
      SmallerQuotient(b, a, p);
    } else {
      assert a == p * (a / p) + a % p && b == p * (b / p) + b % p;
    }
  }

  /** Numerals of the same length have the order of the numbers. */
  lemma {:induction false} FixedOrder(a: nat, b: nat, k: nat)
    requires a < Pow10(k) && b < Pow10(k)
    ensures LexLess(FixedDigits(a, k), FixedDigits(b, k)) <==> a < b
    ensures FixedDigits(a, k) == FixedDigits(b, k) <==> a == b
    decreases k
  {
    if k > 0 {
      var c, x := FixedStep(a, k);
      var d, y := FixedStep(b, k);
      FixedOrder(x, y, k - 1);
      Radix(a, b, Pow10(k - 1));
      DigitCharOrder(c, d);
      LexOneChar(DigitChar(c), DigitChar(d));
      LexFields([DigitChar(c)], FixedDigits(x, k - 1), [DigitChar(d)], FixedDigits(y, k - 1));
      OneMore(DigitChar(c), FixedDigits(x, k - 1), DigitChar(d), FixedDigits(y, k - 1));
      hide FixedDigits, DigitChar, Pow10, LexLess;
    }
  }

  lemma OneMore(c: char, x: string, d: char, y: string)
    ensures [c] + x == [d] + y <==> c == d && x == y
  {
    assert ([c] + x)[0] == c && ([c] + x)[1..] == x && ([d] + y)[0] == d && ([d] + y)[1..] == y;
  }

  /** A character and a numeral before the rest of the text. */
  lemma FieldOrder(c: char, a: nat, x: string, b: nat, y: string, k: nat)
    requires a < Pow10(k) && b < Pow10(k)
    ensures LexLess([c] + FixedDigits(a, k) + x, [c] + FixedDigits(b, k) + y) <==> a < b || (a == b && LexLess(x, y))
  {
    hide LexLess, FixedDigits, Pow10;
    FixedOrder(a, b, k);
    LexFields(FixedDigits(a, k), x, FixedDigits(b, k), y);
    LexFields([c], FixedDigits(a, k) + x, [c], FixedDigits(b, k) + y);
    NotLess([c]);
    assert [c] + FixedDigits(a, k) + x == [c] + (FixedDigits(a, k) + x);
    assert [c] + FixedDigits(b, k) + y == [c] + (FixedDigits(b, k) + y);
  }

  lemma NotLess(s: string)
    ensures !LexLess(s, s)
  {
  }

  // ----- The order of the parts -----

  lemma SecondOrder(a: nat, b: nat)
    requires a < 60_000 && b < 60_000
    ensures LexLess(SecondText(a), SecondText(b)) <==> a < b
  {
    Powers();
    hide LexLess, FixedDigits, Pow10;
    Radix(a, b, 1000);
    FixedOrder(a % 1000, b % 1000, 3);
    NotLess(['Z']);
    var x, y := ['.'] + FixedDigits(a % 1000, 3) + ['Z'], ['.'] + FixedDigits(b % 1000, 3) + ['Z'];
    FieldOrder('.', a % 1000, ['Z'], b % 1000, ['Z'], 3);
    FieldOrder(':', a / 1000, x, b / 1000, y, 2);
    assert SecondText(a) == [':'] + FixedDigits(a / 1000, 2) + x;
    assert SecondText(b) == [':'] + FixedDigits(b / 1000, 2) + y;
  }

  lemma MinuteOrder(a: nat, b: nat)
    requires a < 3_600_000 && b < 3_600_000
    ensures LexLess(MinuteText(a), MinuteText(b)) <==> a < b
  {
    Powers();
    hide LexLess, FixedDigits, Pow10, SecondText;
    Radix(a, b, 60_000);
    SecondOrder(a % 60_000, b % 60_000);
    FieldOrder(':', a / 60_000, SecondText(a % 60_000), b / 60_000, SecondText(b % 60_000), 2);
  }

  lemma ClockOrder(a: nat, b: nat)
    requires a < MS_PER_DAY && b < MS_PER_DAY
    ensures LexLess(ClockText(a), ClockText(b)) <==> a < b
  {
    Powers();
    hide LexLess, FixedDigits, Pow10, MinuteText;
    Radix(a, b, 3_600_000);
    MinuteOrder(a % 3_600_000, b % 3_600_000);
    FieldOrder('T', a / 3_600_000, MinuteText(a % 3_600_000), b / 3_600_000, MinuteText(b % 3_600_000), 2);
  }

  lemma MonthsAdvance(m: nat, n: nat, leap: bool)
    requires m <= n <= 12
    ensures MonthStart(m, leap) <= MonthStart(n, leap)
  {
  }

  /** Of two days of a year the earlier one is in an earlier month or earlier in the same month. */
  lemma MonthOrder(d: nat, e: nat, leap: bool)
    requires d < MonthStart(12, leap) && e < MonthStart(12, leap)
    ensures d < e <==>
              || MonthOf(d, leap) < MonthOf(e, leap)
              || (MonthOf(d, leap) == MonthOf(e, leap) && DayOfMonth(d, leap) < DayOfMonth(e, leap))
    ensures d == e <==> MonthOf(d, leap) == MonthOf(e, leap) && DayOfMonth(d, leap) == DayOfMonth(e, leap)
  {
    var m, n := MonthOf(d, leap), MonthOf(e, leap);
    hide MonthOf, MonthStart;
    if m < n {
      MonthsAdvance(m + 1, n, leap);
    } else if n < m {
      MonthsAdvance(n + 1, m, leap);
    }
  }

  lemma DateOrder(d: nat, a: nat, e: nat, b: nat, leap: bool)
    requires d < MonthStart(12, leap) && e < MonthStart(12, leap) && a < MS_PER_DAY && b < MS_PER_DAY
    ensures LexLess(DateText(d, leap, a), DateText(e, leap, b)) <==> d < e || (d == e && a < b)
  {
    hide LexLess, FixedDigits, Pow10, ClockText, MonthStart, MonthOf, DayOfMonth;
    Powers();
    MonthOrder(d, e, leap);
    ClockOrder(a, b);
    var m, n := MonthOf(d, leap), MonthOf(e, leap);
    var i, j := DayOfMonth(d, leap), DayOfMonth(e, leap);
    FieldOrder('-', i, ClockText(a), j, ClockText(b), 2);
    var x, y := ['-'] + FixedDigits(i, 2) + ClockText(a), ['-'] + FixedDigits(j, 2) + ClockText(b);
    FieldOrder('-', m + 1, x, n + 1, y, 2);
  }

  // ----- The order of the stamps -----

  /** Texts with a plus sign sort first, those with a minus sign next and four-digit years last. */
  function Class(y: int): nat {
    if y > 9999 then 0 else if y < 0 then 1 else 2
  }

  /** The order of the stamps as times: that of time for years of one form, except that the years before the year 0
      are in reverse. */
  predicate StampOrder(a: int, b: int) {
    var x, y := Year(a), Year(b);
    || Class(x) < Class(y)
    || (Class(x) == Class(y) && if x < 0 && x != y then x > y else a < b)
  }

  lemma DayAndClock(a: int, b: int)
    ensures a < b <==> DayOf(a) < DayOf(b) || (DayOf(a) == DayOf(b) && a % MS_PER_DAY < b % MS_PER_DAY)
  {
  }

  lemma YearsInOrder(a: int, b: int)
    requires Year(a) < Year(b)
    ensures a < b
  {
    hide FirstDay, YearOf;
    YearsAdvance(Year(a) + 1, Year(b));
  }

  lemma SignsDiffer(c: char, x: string, d: char, y: string)
    requires c != d
    ensures LexLess([c] + x, [d] + y) <==> c < d
  {
    LexOneChar(c, d);
    LexFields([c], x, [d], y);
    hide LexLess;
  }

  /** The text of a year begins with its sign or its first digit. */
  lemma YearBegins(y: int)
    requires IsYear(y)
    ensures YearText(y) != ""
    ensures YearText(y)[0] == '+' <==> y > 9999
    ensures YearText(y)[0] == '-' <==> y < 0
    ensures 0 <= y <= 9999 ==> YearText(y)[0] >= '0'
  {
    Powers();
    if 0 <= y <= 9999 {
      var d, rest := FixedStep(y, 4);
      DigitIsPlain(d);
    }
    hide FixedDigits, Pow10, DigitChar;
  }

  lemma YearTextOrder(y: int, a: string, z: int, b: string)
    requires IsYear(y) && IsYear(z)
    ensures LexLess(YearText(y) + a, YearText(z) + b)
       <==> (Class(y) < Class(z)
             || (Class(y) == Class(z) && if y == z then LexLess(a, b) else if y < 0 then y > z else y < z))
  {
    hide LexLess, YearText;
    if Class(y) == Class(z) {
      SameClassOrder(y, a, z, b);
    } else {
      YearBegins(y);
      YearBegins(z);
      var s, t := YearText(y), YearText(z);
      SignsDiffer(s[0], s[1..] + a, t[0], t[1..] + b);
      assert s + a == [s[0]] + (s[1..] + a) && t + b == [t[0]] + (t[1..] + b);
    }
  }

  lemma SameClassOrder(y: int, a: string, z: int, b: string)
    requires IsYear(y) && IsYear(z) && Class(y) == Class(z)
    ensures LexLess(YearText(y) + a, YearText(z) + b)
       <==> if y == z then LexLess(a, b) else if y < 0 then y > z else y < z
  {
    Powers();
    hide LexLess, FixedDigits, Pow10;
    if 0 <= y <= 9999 {
      FixedOrder(y, z, 4);
      LexFields(FixedDigits(y, 4), a, FixedDigits(z, 4), b);
    } else if y > 0 {
      FieldOrder('+', y, a, z, b, 6);
    } else {
      FieldOrder('-', -y, a, -z, b, 6);
    }
  }

  /** The stored texts are in the order of the times if both years have four digits, and in general in this one. */
  lemma IsoOrder(a: Time, b: Time)
    ensures Earlier(a, b) <==> StampOrder(a, b)
  {
    YearInRange(a);
    YearInRange(b);
    var y, z := Year(a), Year(b);
    DayAndClock(a, b);
    hide LexLess, YearText, DateText, FirstDay, MonthStart, IsLeap, DayOf, Year;
    var d, e := DayOf(a) - FirstDay(y), DayOf(b) - FirstDay(z);
    YearTextOrder(y, DateText(d, IsLeap(y), a % MS_PER_DAY), z, DateText(e, IsLeap(z), b % MS_PER_DAY));
    if y == z {
      DateOrder(d, a % MS_PER_DAY, e, b % MS_PER_DAY, IsLeap(y));
    } else if y < z {
      YearsInOrder(a, b);
    } else {
      YearsInOrder(b, a);
    }
  }

  predicate HasFourDigitYear(t: int) {
    YEAR_ZERO <= t < YEAR_TEN_THOUSAND
  }

  lemma YearTenThousandFirst()
    ensures FirstDay(10_000) == 3_652_425
  {
  }

  lemma DaysOfBounds(t: int)
    ensures t < YEAR_ZERO <==> DayOf(t) < 0
    ensures t < YEAR_TEN_THOUSAND <==> DayOf(t) < 3_652_425
  {
  }

  lemma FourDigits(t: int)
    ensures t < YEAR_ZERO <==> Year(t) < 0
    ensures t < YEAR_TEN_THOUSAND <==> Year(t) <= 9999
  {
    var y := Year(t);
    hide FirstDay, YearOf, DayOf;
    YearZeroFirst();
    YearTenThousandFirst();
    DaysOfBounds(t);
    if y < 0 {
      YearsAdvance(y + 1, 0);
      YearsAdvance(0, 10_000);
    } else if y <= 9999 {
      YearsAdvance(0, y);
      YearsAdvance(y + 1, 10_000);
    } else {
      YearsAdvance(10_000, y);
      YearsAdvance(0, 10_000);
    }
  }

  /** From a time in a four-digit year, the later stamps are those of the later times in four-digit years. */
  lemma LaterStamps(now: Time, t: Time)
    requires HasFourDigitYear(now)
    ensures Earlier(now, t) <==> now < t < YEAR_TEN_THOUSAND
  {
    IsoOrder(now, t);
    FourDigits(now);
    FourDigits(t);
    hide Earlier, Year;
  }

  lemma EarlierIsStrict(a: Time, b: Time)
    ensures a == b || Earlier(a, b) || Earlier(b, a)
    ensures !(Earlier(a, b) && Earlier(b, a)) && !Earlier(a, a)
  {
    IsoOrder(a, b);
    IsoOrder(b, a);
    hide Earlier, Year;
    IsoOrder(a, a);
  }

  lemma EarlierTransitive(a: Time, b: Time, c: Time)
    requires Earlier(a, b) && Earlier(b, c)
    ensures Earlier(a, c)
  {
    hide Iso, LexLeq;
    LexTransitive(Iso(a), Iso(b), Iso(c));
    if Iso(a) == Iso(c) {
      LexAntisymmetric(Iso(a), Iso(b));
    }
  }

  lemma NotLaterThanEarlier(a: Time, b: Time, c: Time)
    requires !Earlier(b, a) && Earlier(b, c)
    ensures Earlier(a, c)
  {
    hide Earlier;
    EarlierIsStrict(a, b);
    if a != b {
      EarlierTransitive(a, b, c);
    }
  }
}

/** time.Format(time.RFC3339Nano) on UTC instants. An instant is a number of
    nanoseconds since 0001-01-01T00:00:00Z, Go's zero time. */
module Rfc3339 {
  import opened Base
  import opened Text

  type Time = int

  const SECOND := 1_000_000_000
  const DAY := 86_400_000_000_000
  const CYCLE := 146_097 // days in 400 Gregorian years

  datatype Date = Date(year: int, month: nat, day: nat)

  /** Days in the first n years of a 400-year cycle. */
  function DaysBeforeYear(n: nat): nat {
    365 * n + n / 4 - n / 100 + n / 400
  }

  predicate Leap(n: nat) {
    (n + 1) % 4 == 0 && ((n + 1) % 100 != 0 || (n + 1) % 400 == 0)
  }

  /** The zero-based year of the cycle that holds day r of the cycle. */
  function YearOfCycle(r: nat, n: nat): (y: nat)
    requires n < 400 && DaysBeforeYear(n) <= r < CYCLE
    ensures y < 400 && DaysBeforeYear(y) <= r < DaysBeforeYear(y + 1)
    decreases 400 - n
  {
    if r < DaysBeforeYear(n + 1) then n else YearOfCycle(r, n + 1)
  }

  function DaysInMonth(month: nat, leap: bool): nat {
    if month == 2 then (if leap then 29 else 28)
    else if month == 4 || month == 6 || month == 9 || month == 11 then 30
    else 31
  }

  function DaysBeforeMonth(month: nat, leap: bool): nat {
    if month <= 1 then 0 else DaysBeforeMonth(month - 1, leap) + DaysInMonth(month - 1, leap)
  }

  function MonthOf(yday: nat, month: nat, leap: bool): (m: nat)
    requires 1 <= month <= 12 && DaysBeforeMonth(month, leap) <= yday
    ensures month <= m <= 12 && DaysBeforeMonth(m, leap) <= yday
    ensures m < 12 ==> yday < DaysBeforeMonth(m + 1, leap)
    decreases 12 - month
  {
    if month == 12 || yday < DaysBeforeMonth(month + 1, leap) then month else MonthOf(yday, month + 1, leap)
  }

  function MonthAndDay(yday: nat, leap: bool): (md: (nat, nat))
    requires yday < if leap then 366 else 365
    ensures 1 <= md.0 <= 12 && 1 <= md.1 <= 31
    ensures yday == DaysBeforeMonth(md.0, leap) + md.1 - 1
  {
    MonthStarts(leap);
    var m := MonthOf(yday, 1, leap);
    (m, yday - DaysBeforeMonth(m, leap) + 1)
  }

  /** The civil date of a day counted from 0001-01-01. */
  function DateOf(day: int): (d: Date)
    ensures DayOf(d) == day
    ensures 1 <= d.month <= 12 && 1 <= d.day <= 31
  {
    var c, r := day / CYCLE, day % CYCLE;
    var n := YearOfCycle(r, 0);
    YearLength(n);
    var (month, dayOfMonth) := MonthAndDay(r - DaysBeforeYear(n), Leap(n));
    DateRebuilds(c, n, month, dayOfMonth);
    Date(400 * c + n + 1, month, dayOfMonth)
  }

  lemma DateRebuilds(c: int, n: nat, month: nat, day: nat)
    requires n < 400
    ensures DayOf(Date(400 * c + n + 1, month, day))
         == CYCLE * c + DaysBeforeYear(n) + DaysBeforeMonth(month, Leap(n)) + day - 1
  {
    var y := 400 * c + n;
    assert y / 400 == c && y % 400 == n;
  }

  lemma NextMultiple(n: nat, k: nat)
    requires k in {4, 100, 400}
    ensures (n + 1) / k == n / k + if (n + 1) % k == 0 then 1 else 0
  {
  }

  lemma YearLength(n: nat)
    ensures DaysBeforeYear(n + 1) == DaysBeforeYear(n) + if Leap(n) then 366 else 365
  {
    NextMultiple(n, 4);
    NextMultiple(n, 100);
    NextMultiple(n, 400);
    MultiplesNest(n + 1);
  }

  lemma MultiplesNest(n: nat)
    ensures n % 400 == 0 ==> n % 100 == 0
    ensures n % 100 == 0 ==> n % 4 == 0
  {
    if n % 400 == 0 {
      assert n == 100 * (4 * (n / 400));
    }
    if n % 100 == 0 {
      assert n == 4 * (25 * (n / 100));
    }
  }

  lemma MonthStarts(leap: bool)
    ensures DaysBeforeMonth(12, leap) == if leap then 335 else 334
    ensures forall m :: 1 <= m < 12 ==> DaysBeforeMonth(m + 1, leap) <= DaysBeforeMonth(m, leap) + 31
  {
    var february := if leap then 29 else 28;
    assert DaysBeforeMonth(2, leap) == 31;
    assert DaysBeforeMonth(3, leap) == 31 + february;
    assert DaysBeforeMonth(4, leap) == 62 + february;
    assert DaysBeforeMonth(5, leap) == 92 + february;
    assert DaysBeforeMonth(6, leap) == 123 + february;
    assert DaysBeforeMonth(7, leap) == 153 + february;
    assert DaysBeforeMonth(8, leap) == 184 + february;
    assert DaysBeforeMonth(9, leap) == 215 + february;
    assert DaysBeforeMonth(10, leap) == 245 + february;
    assert DaysBeforeMonth(11, leap) == 276 + february;
  }

  /** The inverse: which day a civil date names. */
  function DayOf(d: Date): int {
    var c, n := (d.year - 1) / 400, (d.year - 1) % 400;
    CYCLE * c + DaysBeforeYear(n) + DaysBeforeMonth(d.month, Leap(n)) + d.day - 1
  }

  function SignedYear(y: int): string {
    if y < 0 then "-" + Decimal(-y, 4) else Decimal(y, 4)
  }

  function StripZeros(s: string): string {
    if s != [] && s[|s| - 1] == '0' then StripZeros(s[..|s| - 1]) else s
  }

  function Fraction(nanos: nat): string {
    if nanos == 0 then "" else "." + StripZeros(Decimal(nanos, 9))
  }

  function DatePart(d: Date): string {
    SignedYear(d.year) + ("-" + Decimal(d.month, 2) + "-" + Decimal(d.day, 2))
  }

  function HourMinuteSecond(s: nat): string {
    Decimal(s / 3600, 2) + ":" + Decimal(s / 60 % 60, 2) + ":" + Decimal(s % 60, 2)
  }

  function ClockPart(ns: nat): string {
    HourMinuteSecond(ns / SECOND) + (Fraction(ns % SECOND) + "Z")
  }

  function Format(t: Time): string {
    DatePart(DateOf(t / DAY)) + "T" + ClockPart(t % DAY)
  }

  ghost predicate TimeText(s: string) {
    forall i :: 0 <= i < |s| ==> '0' <= s[i] <= '9' || s[i] in "-:.Z"
  }

  lemma SignedYearText(y: int)
    ensures TimeText(SignedYear(y))
  {
    DecimalParses(if y < 0 then -y else y, 4);
  }

  lemma SignedYearInjective(y: int, y': int)
    requires SignedYear(y) == SignedYear(y')
    ensures y == y'
  {
    var a, a' := if y < 0 then -y else y, if y' < 0 then -y' else y';
    DecimalParses(a, 4);
    DecimalParses(a', 4);
    assert SignedYear(y)[0] == '-' <==> y < 0;
    assert SignedYear(y')[0] == '-' <==> y' < 0;
    if y < 0 {
      assert SignedYear(y)[1..] == Decimal(a, 4) && SignedYear(y')[1..] == Decimal(a', 4);
    }
  }

  lemma TwoDigits(n: nat)
    requires n < 100
    ensures |Decimal(n, 2)| == 2 && IsDigits(Decimal(n, 2)) && ParseDecimal(Decimal(n, 2)) == n
  {
    assert Pow10(2) == 100;
    DecimalWidth(n, 2);
    DecimalParses(n, 2);
  }

  lemma {:induction false} StripZerosKeeps(s: string, s': string)
    requires |s| == |s'| && StripZeros(s) == StripZeros(s')
    ensures s == s'
  {
    StripZerosPrefix(s);
    StripZerosPrefix(s');
  }

  lemma {:induction false} StripZerosPrefix(s: string)
    ensures |StripZeros(s)| <= |s| && s[..|StripZeros(s)|] == StripZeros(s)
    ensures forall i :: |StripZeros(s)| <= i < |s| ==> s[i] == '0'
  {
    if s != [] && s[|s| - 1] == '0' {
      StripZerosPrefix(s[..|s| - 1]);
    }
  }

  lemma FractionInjective(n: nat, n': nat)
    requires n < SECOND && n' < SECOND && Fraction(n) == Fraction(n')
    ensures n == n'
    ensures TimeText(Fraction(n))
  {
    assert Pow10(9) == SECOND by {
      assert Pow10(3) == 1000;
      assert Pow10(6) == 1_000_000;
    }
    DecimalWidth(n, 9);
    DecimalWidth(n', 9);
    DecimalParses(n, 9);
    DecimalParses(n', 9);
    StripZerosPrefix(Decimal(n, 9));
    if n != 0 {
      assert Fraction(n)[1..] == StripZeros(Decimal(n, 9));
      assert Fraction(n')[1..] == StripZeros(Decimal(n', 9));
      StripZerosKeeps(Decimal(n, 9), Decimal(n', 9));
    }
  }

  lemma DatePartText(d: Date)
    requires d.month < 100 && d.day < 100
    ensures var s, n := DatePart(d), |SignedYear(d.year)|;
            && |s| == n + 6 && TimeText(s) && s[..n] == SignedYear(d.year)
            && s[n + 1..n + 3] == Decimal(d.month, 2) && s[n + 4..] == Decimal(d.day, 2)
  {
    SignedYearText(d.year);
    TwoDigits(d.month);
    TwoDigits(d.day);
  }

  lemma DatePartInjective(d: Date, d': Date)
    requires d.month < 100 && d.day < 100 && d'.month < 100 && d'.day < 100
    requires DatePart(d) == DatePart(d')
    ensures d == d'
  {
    DatePartText(d);
    DatePartText(d');
    TwoDigits(d.month);
    TwoDigits(d.day);
    TwoDigits(d'.month);
    TwoDigits(d'.day);
    SignedYearInjective(d.year, d'.year);
  }

  lemma HourMinuteSecondText(s: nat)
    requires s < 86_400
    ensures |HourMinuteSecond(s)| == 8 && TimeText(HourMinuteSecond(s))
    ensures HourMinuteSecond(s)[..2] == Decimal(s / 3600, 2)
    ensures HourMinuteSecond(s)[3..5] == Decimal(s / 60 % 60, 2)
    ensures HourMinuteSecond(s)[6..] == Decimal(s % 60, 2)
  {
    TwoDigits(s / 3600);
    TwoDigits(s / 60 % 60);
    TwoDigits(s % 60);
  }

  lemma HourMinuteSecondInjective(s: nat, s': nat)
    requires s < 86_400 && s' < 86_400 && HourMinuteSecond(s) == HourMinuteSecond(s')
    ensures s == s'
  {
    HourMinuteSecondText(s);
    HourMinuteSecondText(s');
    TwoDigits(s / 3600);
    TwoDigits(s' / 3600);
    TwoDigits(s / 60 % 60);
    TwoDigits(s' / 60 % 60);
    TwoDigits(s % 60);
    TwoDigits(s' % 60);
    Sexagesimal(s);
    Sexagesimal(s');
  }

  lemma Sexagesimal(s: nat)
    ensures s == s / 3600 * 3600 + s / 60 % 60 * 60 + s % 60
  {
  }

  lemma ClockPartInjective(ns: nat, ns': nat)
    requires ns < DAY && ns' < DAY && ClockPart(ns) == ClockPart(ns')
    ensures ns == ns'
    ensures TimeText(ClockPart(ns))
  {
    HourMinuteSecondText(ns / SECOND);
    HourMinuteSecondText(ns' / SECOND);
    var c := ClockPart(ns);
    assert c[..8] == HourMinuteSecond(ns / SECOND) && c[..8] == HourMinuteSecond(ns' / SECOND);
    assert c[8..|c| - 1] == Fraction(ns % SECOND) && c[8..|c| - 1] == Fraction(ns' % SECOND);
    FractionInjective(ns % SECOND, ns' % SECOND);
    HourMinuteSecondInjective(ns / SECOND, ns' / SECOND);
  }

  /** What a fraction says: nothing for a whole second, otherwise a point and
      up to nine digits, the last not zero, that count its nanoseconds. */
  ghost predicate FractionSays(text: string, nanos: nat) {
    if nanos == 0 then text == ""
    else && 2 <= |text| <= 10 && text[0] == '.' && IsDigits(text[1..]) && text[|text| - 1] != '0'
         && nanos == ParseDecimal(text[1..]) * Pow10(10 - |text|)
  }

  /** A formatted instant reads as year, month, day, hour, minute, second and
      fraction in UTC, and these add up to the instant. */
  lemma FormatReads(t: Time) returns (date: Date, hour: nat, minute: nat, second: nat, nanos: nat, fraction: string)
    ensures 1 <= date.month <= 12 && 1 <= date.day <= 31 && hour < 24 && minute < 60 && second < 60 && nanos < SECOND
    ensures t == DayOf(date) * DAY + (hour * 3600 + minute * 60 + second) * SECOND + nanos
    ensures FractionSays(fraction, nanos)
    ensures Format(t) == SignedYear(date.year) + "-" + Decimal(date.month, 2) + "-" + Decimal(date.day, 2) + "T"
                         + Decimal(hour, 2) + ":" + Decimal(minute, 2) + ":" + Decimal(second, 2) + fraction + "Z"
  {
    var s := t % DAY / SECOND;
    date, nanos := DateOf(t / DAY), t % DAY % SECOND;
    hour, minute, second, fraction := s / 3600, s / 60 % 60, s % 60, Fraction(nanos);
    Sexagesimal(s);
    FractionReads(nanos);
    JoinsAs(SignedYear(date.year), Decimal(date.month, 2), Decimal(date.day, 2),
            Decimal(hour, 2), Decimal(minute, 2), Decimal(second, 2), fraction);
  }

  lemma JoinsAs(year: string, month: string, day: string, hour: string, minute: string, second: string, rest: string)
    ensures year + ("-" + month + "-" + day) + "T" + ((hour + ":" + minute + ":" + second) + (rest + "Z"))
         == year + "-" + month + "-" + day + "T" + hour + ":" + minute + ":" + second + rest + "Z"
  {
    var clock := hour + ":" + minute + ":" + second;
    assert year + ("-" + month + "-" + day) == year + "-" + month + "-" + day;
    assert clock + (rest + "Z") == clock + rest + "Z";
  }

  lemma FractionReads(nanos: nat)
    requires nanos < SECOND
    ensures FractionSays(Fraction(nanos), nanos)
  {
    if nanos != 0 {
      assert Pow10(9) == SECOND by {
        assert Pow10(3) == 1000;
        assert Pow10(6) == 1_000_000;
      }
      DecimalWidth(nanos, 9);
      DecimalParses(nanos, 9);
      StripZerosReads(Decimal(nanos, 9));
      assert Fraction(nanos)[1..] == StripZeros(Decimal(nanos, 9));
    }
  }

  lemma {:induction false} StripZerosReads(s: string)
    requires IsDigits(s) && ParseDecimal(s) != 0
    ensures var u := StripZeros(s);
            && u != [] && |u| <= |s| && IsDigits(u) && u[|u| - 1] != '0'
            && ParseDecimal(s) == ParseDecimal(u) * Pow10(|s| - |u|)
  {
    if s[|s| - 1] == '0' {
      StripZerosReads(s[..|s| - 1]);
    }
  }

  /** Distinct instants are written differently. */
  lemma FormatInjective(t: Time, t': Time)
    requires Format(t) == Format(t')
    ensures t == t'
  {
    FormatText(t);
    FormatText(t');
    FormatSplits(DateOf(t / DAY), t % DAY, DateOf(t' / DAY), t' % DAY);
  }

  lemma FormatSplits(d: Date, ns: nat, d': Date, ns': nat)
    requires d.month < 100 && d.day < 100 && d'.month < 100 && d'.day < 100 && ns < DAY && ns' < DAY
    requires TimeText(DatePart(d)) && TimeText(DatePart(d'))
    requires DatePart(d) + "T" + ClockPart(ns) == DatePart(d') + "T" + ClockPart(ns')
    ensures d == d' && ns == ns'
  {
    SplitAtFirst(DatePart(d), ClockPart(ns), DatePart(d'), ClockPart(ns'), 'T');
    DatePartInjective(d, d');
    ClockPartInjective(ns, ns');
  }

  lemma FormatText(t: Time)
    ensures TimeText(DatePart(DateOf(t / DAY))) && TimeText(ClockPart(t % DAY))
  {
    DatePartText(DateOf(t / DAY));
    ClockPartInjective(t % DAY, t % DAY);
  }

  /** A formatted time holds printable characters only. */
  lemma FormatPlain(t: Time)
    ensures forall c :: c in Format(t) ==> ' ' < c
  {
    FormatText(t);
  }
}

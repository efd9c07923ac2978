/**
 * UTC date-times as Python's `datetime` holds them, and the hour-granularity
 * key `strftime("%Y%m%d%H")` renders from one.
 */
module Clock {
  import opened Text

  /** A naive `datetime` value, read as UTC. */
  datatype DateTime = DateTime(year: int, month: int, day: int,
                               hour: int, minute: int, second: int, microsecond: int)

  predicate IsLeapYear(year: int) {
    year % 4 == 0 && (year % 100 != 0 || year % 400 == 0)
  }

  function DaysInMonth(year: int, month: int): (d: int)
    requires 1 <= month <= 12
    ensures 28 <= d <= 31
  {
    if month == 2 then (if IsLeapYear(year) then 29 else 28)
    else if month in {4, 6, 9, 11} then 30
    else 31
  }

  /** The ranges a `datetime` object always keeps to. */
  predicate ValidDateTime(t: DateTime) {
    && 1 <= t.year <= 9999
    && 1 <= t.month <= 12
    && 1 <= t.day <= DaysInMonth(t.year, t.month)
    && 0 <= t.hour <= 23
    && 0 <= t.minute <= 59
    && 0 <= t.second <= 59
    && 0 <= t.microsecond <= 999999
  }

  /** The two readings fall in the same UTC hour. */
  predicate SameHour(a: DateTime, b: DateTime) {
    a.year == b.year && a.month == b.month && a.day == b.day && a.hour == b.hour
  }

  /** `t.strftime("%Y%m%d%H")`: the year, then month, day and hour as two
      zero-padded digits each; ten digits for years from 1000 on. */
  function HourKey(t: DateTime): (k: string)
    requires ValidDateTime(t)
    ensures AllDigits(k)
    ensures 1000 <= t.year ==> |k| == 10
  {
    var k := Decimal(t.year) + Pad2(t.month) + Pad2(t.day) + Pad2(t.hour);
    if 1000 <= t.year then
      KeyLayout(t.year, t.month, t.day, t.hour);
      k
    else
      k
  }

  /** For years from 1000 on, the key reads back field by field as the
      reading's year, month, day and hour. */
  lemma HourKeyFields(t: DateTime)
    requires ValidDateTime(t) && 1000 <= t.year
    ensures var k := HourKey(t);
      && |k| == 10
      && DecimalValue(k[..4]) == t.year && DecimalValue(k[4..6]) == t.month
      && DecimalValue(k[6..8]) == t.day && DecimalValue(k[8..]) == t.hour
  {
    KeyLayout(t.year, t.month, t.day, t.hour);
  }

  /** Where each field sits in a key whose year has four digits. */
  lemma KeyLayout(year: nat, month: nat, day: nat, hour: nat)
    requires 1000 <= year <= 9999 && month < 100 && day < 100 && hour < 100
    ensures var k := Decimal(year) + Pad2(month) + Pad2(day) + Pad2(hour);
      && |k| == 10
      && k[..4] == Decimal(year) && k[4..6] == Pad2(month)
      && k[6..8] == Pad2(day) && k[8..] == Pad2(hour)
      && DecimalValue(k[..4]) == year
  {
    assert Pow10(3) == 1000 && Pow10(4) == 10000 by {
      assert Pow10(1) == 10 && Pow10(2) == 100;
    }
    DecimalLength(year, 4);
    DecimalRoundTrip(year);
  }

  /** Readings in the same UTC hour give the same key, whatever their minutes and seconds. */
  lemma HourKeyDeterministic(a: DateTime, b: DateTime)
    requires ValidDateTime(a) && ValidDateTime(b) && SameHour(a, b)
    ensures HourKey(a) == HourKey(b)
  {
  }

  /** For four-digit years, readings in different UTC hours give different keys. */
  lemma HourKeyInjective(a: DateTime, b: DateTime)
    requires ValidDateTime(a) && ValidDateTime(b)
    requires 1000 <= a.year && 1000 <= b.year
    requires HourKey(a) == HourKey(b)
    ensures SameHour(a, b)
  {
    HourKeyFields(a);
    HourKeyFields(b);
  }

  /** 2024-03-01 10:15 UTC renders as "2024030110". */
  lemma HourKeyExample()
    ensures HourKey(DateTime(2024, 3, 1, 10, 15, 0, 0)) == "2024030110"
  {
    assert Decimal(2024) == "2024" by {
      assert Decimal(2) == "2";
      assert Decimal(20) == "20";
      assert Decimal(202) == "202";
    }
  }
}

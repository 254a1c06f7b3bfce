/**
 Naive (time-zone-free) Python `datetime` values: the calendar fields, the text
 `isoformat(timespec="seconds")` renders, and the proleptic-Gregorian day count
 Python uses to order and shift them.
 */
module Timestamps {
  import opened Wrappers

  datatype DateTime = DateTime(year: int, month: int, day: int,
                               hour: int, minute: int, second: int, microsecond: int)

  predicate IsLeapYear(y: int) {
    y % 4 == 0 && (y % 100 != 0 || y % 400 == 0)
  }

  function DaysInMonth(y: int, m: int): int
    requires 1 <= m <= 12
  {
    if m == 2 then (if IsLeapYear(y) then 29 else 28)
    else if m == 4 || m == 6 || m == 9 || m == 11 then 30
    else 31
  }

  function DaysInYear(y: int): int {
    if IsLeapYear(y) then 366 else 365
  }

  /** The ranges Python's `datetime` constructor accepts (MINYEAR 1 to MAXYEAR 9999). */
  predicate Valid(dt: DateTime) {
    && 1 <= dt.year <= 9999
    && 1 <= dt.month <= 12
    && 1 <= dt.day <= DaysInMonth(dt.year, dt.month)
    && 0 <= dt.hour < 24
    && 0 <= dt.minute < 60
    && 0 <= dt.second < 60
    && 0 <= dt.microsecond < 1000000
  }

  type ValidDateTime = dt: DateTime | Valid(dt) witness DateTime(1, 1, 1, 0, 0, 0, 0)

  // ---------------------------------------------------------------- decimal text

  predicate IsDigit(c: char) {
    '0' <= c <= '9'
  }

  predicate AllDigits(s: string) {
    forall i | 0 <= i < |s| :: IsDigit(s[i])
  }

  function DigitChar(d: int): (c: char)
    requires 0 <= d < 10
    ensures IsDigit(c)
  {
    (('0' as int) + d) as char
  }

  function DigitValue(c: char): (d: nat)
    requires IsDigit(c)
    ensures d < 10
  {
    (c as int) - ('0' as int)
  }

  function Pow10(w: nat): (p: nat)
    ensures p >= 1
  {
    if w == 0 then 1 else 10 * Pow10(w - 1)
  }

  /** `str(n)` for a non-negative integer: no leading zeros. */
  function Decimal(n: nat): (s: string)
    ensures |s| >= 1 && AllDigits(s)
    decreases n
  {
    if n < 10 then [DigitChar(n)] else Decimal(n / 10) + [DigitChar(n % 10)]
  }

  function Zeros(k: nat): (s: string)
    ensures |s| == k && forall i | 0 <= i < k :: s[i] == '0'
  {
    seq(k, i => '0')
  }

  /** `f"{n:0{width}d}"`: `n` in decimal, left-padded with zeros to at least `width` characters. */
  function ZeroPad(n: nat, width: nat): (s: string)
    ensures AllDigits(s)
    ensures |s| == if |Decimal(n)| < width then width else |Decimal(n)|
  {
    var digits := Decimal(n);
    if |digits| < width then Zeros(width - |digits|) + digits else digits
  }

  /** The value of a string of decimal digits (leading zeros allowed). */
  function ParseDecimal(s: string): nat
    requires AllDigits(s)
  {
    if s == [] then 0 else 10 * ParseDecimal(s[..|s| - 1]) + DigitValue(s[|s| - 1])
  }

  lemma {:induction false} ParseDecimalOfDecimal(n: nat)
    ensures ParseDecimal(Decimal(n)) == n
    decreases n
  {
    if n >= 10 {
      var s := Decimal(n);
      assert s[..|s| - 1] == Decimal(n / 10);
      ParseDecimalOfDecimal(n / 10);
    }
  }

  lemma {:induction false} ParseDecimalLeadingZeros(k: nat, s: string)
    requires AllDigits(s)
    ensures ParseDecimal(Zeros(k) + s) == ParseDecimal(s)
    decreases |s|
  {
    if s == [] {
      assert Zeros(k) + s == Zeros(k);
      ParseDecimalZeros(k);
    } else {
      var t := Zeros(k) + s;
      assert t[..|t| - 1] == Zeros(k) + s[..|s| - 1];
      ParseDecimalLeadingZeros(k, s[..|s| - 1]);
    }
  }

  lemma {:induction false} ParseDecimalZeros(k: nat)
    ensures ParseDecimal(Zeros(k)) == 0
    decreases k
  {
    if k > 0 {
      assert Zeros(k)[..k - 1] == Zeros(k - 1);
      ParseDecimalZeros(k - 1);
    }
  }

  /** Zero padding never changes the value the digits denote. */
  lemma ParseZeroPad(n: nat, width: nat)
    ensures ParseDecimal(ZeroPad(n, width)) == n
  {
    ParseDecimalOfDecimal(n);
    if |Decimal(n)| < width {
      ParseDecimalLeadingZeros(width - |Decimal(n)|, Decimal(n));
    }
  }

  /** A number below 10^w has at most w digits, so `ZeroPad(n, w)` is exactly w long. */
  lemma {:induction false} DecimalLength(n: nat, w: nat)
    requires 1 <= w && n < Pow10(w)
    ensures |Decimal(n)| <= w
    decreases n
  {
    if n >= 10 {
      assert n / 10 < Pow10(w - 1);
      assert Pow10(0) == 1;
      DecimalLength(n / 10, w - 1);
    }
  }

  // ---------------------------------------------------------------- ISO text

  /** `dt.isoformat(timespec="seconds")`: `YYYY-MM-DDTHH:MM:SS`, the microseconds dropped. */
  function IsoSeconds(dt: ValidDateTime): string {
    ZeroPad(dt.year, 4) + "-" + ZeroPad(dt.month, 2) + "-" + ZeroPad(dt.day, 2) + "T"
      + ZeroPad(dt.hour, 2) + ":" + ZeroPad(dt.minute, 2) + ":" + ZeroPad(dt.second, 2)
  }

  /** Every field of a valid date-time fits its width, so each padded field has exactly that width. */
  lemma FieldWidths(dt: ValidDateTime)
    ensures |ZeroPad(dt.year, 4)| == 4
    ensures |ZeroPad(dt.month, 2)| == 2 && |ZeroPad(dt.day, 2)| == 2
    ensures |ZeroPad(dt.hour, 2)| == 2 && |ZeroPad(dt.minute, 2)| == 2 && |ZeroPad(dt.second, 2)| == 2
  {
    assert Pow10(2) == 100;
    assert Pow10(4) == 10000;
    DecimalLength(dt.year, 4);
    DecimalLength(dt.month, 2);
    DecimalLength(dt.day, 2);
    DecimalLength(dt.hour, 2);
    DecimalLength(dt.minute, 2);
    DecimalLength(dt.second, 2);
  }

  /** The one datetime text format the ticket API accepts: seconds precision and a trailing `Z`. */
  function ApiIsoTimestamp(dt: ValidDateTime): (s: string)
    ensures |s| == 20
    ensures s[4] == '-' && s[7] == '-' && s[10] == 'T' && s[13] == ':' && s[16] == ':' && s[19] == 'Z'
    ensures forall i | 0 <= i < 20 && i !in {4, 7, 10, 13, 16, 19} :: IsDigit(s[i])
  {
    FieldWidths(dt);
    IsoSeconds(dt) + "Z"
  }

  /** Reads API timestamp text back into a date-time (microseconds zero), or None. */
  function ParseApiTimestamp(s: string): Option<ValidDateTime> {
    if && |s| == 20
       && s[4] == '-' && s[7] == '-' && s[10] == 'T' && s[13] == ':' && s[16] == ':' && s[19] == 'Z'
       && AllDigits(s[0..4]) && AllDigits(s[5..7]) && AllDigits(s[8..10])
       && AllDigits(s[11..13]) && AllDigits(s[14..16]) && AllDigits(s[17..19])
    then
      var dt := DateTime(ParseDecimal(s[0..4]), ParseDecimal(s[5..7]), ParseDecimal(s[8..10]),
                         ParseDecimal(s[11..13]), ParseDecimal(s[14..16]), ParseDecimal(s[17..19]), 0);
      if Valid(dt) then Some(dt) else None
    else None
  }

  /** The timestamp text determines the date-time down to the second: reading it back
      gives `dt` with its microseconds dropped. */
  lemma ApiTimestampRoundTrip(dt: ValidDateTime)
    ensures ParseApiTimestamp(ApiIsoTimestamp(dt)) == Some(dt.(microsecond := 0))
  {
    FieldWidths(dt);
    var s := ApiIsoTimestamp(dt);
    assert s[0..4] == ZeroPad(dt.year, 4);
    assert s[5..7] == ZeroPad(dt.month, 2);
    assert s[8..10] == ZeroPad(dt.day, 2);
    assert s[11..13] == ZeroPad(dt.hour, 2);
    assert s[14..16] == ZeroPad(dt.minute, 2);
    assert s[17..19] == ZeroPad(dt.second, 2);
    ParseZeroPad(dt.year, 4);
    ParseZeroPad(dt.month, 2);
    ParseZeroPad(dt.day, 2);
    ParseZeroPad(dt.hour, 2);
    ParseZeroPad(dt.minute, 2);
    ParseZeroPad(dt.second, 2);
  }

  // ---------------------------------------------------------------- day counts

  /** Days in the years before `y`, counted from 0001-01-01. */
  function DaysBeforeYear(y: int): int
    requires y >= 1
  {
    var x := y - 1;
    365 * x + x / 4 - x / 100 + x / 400
  }

  /** Days in the months of year `y` before month `m`. */
  function DaysBeforeMonth(y: int, m: int): int
    requires 1 <= m <= 12
  {
    var leap := if IsLeapYear(y) then 1 else 0;
    if m == 1 then 0
    else if m == 2 then 31
    else if m == 3 then 59 + leap
    else if m == 4 then 90 + leap
    else if m == 5 then 120 + leap
    else if m == 6 then 151 + leap
    else if m == 7 then 181 + leap
    else if m == 8 then 212 + leap
    else if m == 9 then 243 + leap
    else if m == 10 then 273 + leap
    else if m == 11 then 304 + leap
    else 334 + leap
  }

  /** `dt.toordinal()`: 0001-01-01 is day 1. */
  function Ordinal(dt: ValidDateTime): int {
    DaysBeforeYear(dt.year) + DaysBeforeMonth(dt.year, dt.month) + dt.day
  }

  /** The ordinal of 9999-12-31, the last day a `datetime` can hold. */
  const MaxOrdinal: int := 3652059

  const MicrosPerDay: int := 86400000000

  /** Microseconds since 0001-01-01T00:00:00; naive datetimes compare and shift by this count. */
  function Micros(dt: ValidDateTime): int {
    ((((Ordinal(dt) - 1) * 24 + dt.hour) * 60 + dt.minute) * 60 + dt.second) * 1000000 + dt.microsecond
  }

  /** Going from `y - 1` to `y`, each leap-year correction term grows exactly when `y` is a multiple. */
  lemma DivSteps(y: int)
    requires y >= 1
    ensures y / 4 - (y - 1) / 4 == if y % 4 == 0 then 1 else 0
    ensures y / 100 - (y - 1) / 100 == if y % 100 == 0 then 1 else 0
    ensures y / 400 - (y - 1) / 400 == if y % 400 == 0 then 1 else 0
  {
  }

  lemma StepDifference(y: int)
    requires y >= 1
    ensures DaysBeforeYear(y + 1) - DaysBeforeYear(y)
            == 365 + (y / 4 - (y - 1) / 4) - (y / 100 - (y - 1) / 100) + (y / 400 - (y - 1) / 400)
  {
  }

  lemma MultipleFacts(y: int)
    ensures y % 100 == 0 ==> y % 4 == 0
    ensures y % 400 == 0 ==> y % 100 == 0
  {
    if y % 100 == 0 {
      HundredsAreFours(y / 100);
    }
    if y % 400 == 0 {
      FourHundredsAreHundreds(y / 400);
    }
  }

  lemma HundredsAreFours(q: int)
    ensures (100 * q) % 4 == 0
  {
    assert 100 * q == 4 * (25 * q);
  }

  lemma FourHundredsAreHundreds(q: int)
    ensures (400 * q) % 100 == 0
  {
    assert 400 * q == 100 * (4 * q);
  }

  /** One more year adds that year's length: the division terms encode the leap-year rule. */
  lemma DaysBeforeYearStep(y: int)
    requires y >= 1
    ensures DaysBeforeYear(y + 1) == DaysBeforeYear(y) + DaysInYear(y)
  {
    DivSteps(y);
    StepDifference(y);
    MultipleFacts(y);
  }

  lemma {:induction false} DaysBeforeYearBound(y: int)
    requires 1 <= y <= 9999
    ensures DaysBeforeYear(y + 1) <= MaxOrdinal
    decreases 9999 - y
  {
    if y < 9999 {
      DaysBeforeYearStep(y + 1);
      DaysBeforeYearBound(y + 1);
    }
  }

  /** Every representable date has an ordinal between 1 and that of 9999-12-31. */
  lemma OrdinalRange(dt: ValidDateTime)
    ensures 1 <= Ordinal(dt) <= MaxOrdinal
  {
    DaysBeforeYearStep(dt.year);
    DaysBeforeYearBound(dt.year);
  }

  /** The time of day never reaches the next day. */
  lemma MicrosWithinDay(dt: ValidDateTime)
    ensures (Ordinal(dt) - 1) * MicrosPerDay <= Micros(dt) < Ordinal(dt) * MicrosPerDay
  {
  }
}

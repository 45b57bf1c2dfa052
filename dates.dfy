/** Calendar dates as Python's `datetime.date` holds them, the whole-year age
    between two dates, and the `%m-%d-%Y` text form of a date. */
module Dates {
  import opened Wrappers

  /** A year, month and day, not yet known to name a real day. */
  datatype Ymd = Ymd(year: int, month: int, day: int)

  /** The year range of Python's `date` (`MINYEAR` and `MAXYEAR`). */
  const MinYear := 1
  const MaxYear := 9999

  /** Leap years of the proleptic Gregorian calendar. */
  predicate IsLeapYear(y: int) {
    y % 4 == 0 && (y % 100 != 0 || y % 400 == 0)
  }

  function DaysInMonth(y: int, m: int): (n: int)
    requires 1 <= m <= 12
    ensures 28 <= n <= 31
    ensures n == 29 <==> m == 2 && IsLeapYear(y)
  {
    if m == 2 then (if IsLeapYear(y) then 29 else 28)
    else if m == 4 || m == 6 || m == 9 || m == 11 then 30
    else 31
  }

  predicate IsCalendarDate(d: Ymd) {
    MinYear <= d.year <= MaxYear && 1 <= d.month <= 12 && 1 <= d.day <= DaysInMonth(d.year, d.month)
  }

  /** Every value of Python's `date` type names a real calendar day. */
  type Date = d: Ymd | IsCalendarDate(d) witness Ymd(1, 1, 1)

  /** Python's tuple comparison `(a0, a1) < (b0, b1)`: lexicographic. */
  predicate PairLess(a0: int, a1: int, b0: int, b1: int) {
    a0 < b0 || (a0 == b0 && a1 < b1)
  }

  /** Python's `a < b` on dates: `a` is an earlier day than `b`. */
  predicate Before(a: Ymd, b: Ymd) {
    a.year < b.year || (a.year == b.year && PairLess(a.month, a.day, b.month, b.day))
  }

  /** Python converts `False`/`True` to 0/1 when a bool is subtracted from an int. */
  function BoolToInt(b: bool): (k: int) {
    if b then 1 else 0
  }

  // ---------------------------------------------------------------------------
  // Age
  // ---------------------------------------------------------------------------

  /** The `age` property: the year difference, less one when `today`'s
      (month, day) comes before `day`'s (month, day). `today` is a parameter
      in place of `date.today()`. */
  function Age(today: Date, day: Date): (n: int)
    ensures today.year - day.year - 1 <= n <= today.year - day.year
  {
    today.year - day.year - BoolToInt(PairLess(today.month, today.day, day.month, day.day))
  }

  /** Reference meaning of a whole-year age: the `n`-th anniversary of `day`
      (same month and day, `n` years later) is not after `today`. The
      anniversary is compared as a triple, so a 29 February anniversary in a
      common year falls between 28 February and 1 March. */
  predicate AnniversaryReached(day: Ymd, today: Ymd, n: int) {
    !Before(today, Ymd(day.year + n, day.month, day.day))
  }

  /** The age counts exactly the anniversaries already reached: the `n`-th
      has been reached if and only if `n` is at most the age. */
  lemma AgeCountsAnniversaries(today: Date, day: Date, n: int)
    ensures AnniversaryReached(day, today, n) <==> n <= Age(today, day)
  {
  }

  /** The age is the largest number of anniversaries reached. */
  lemma AgeIsGreatestAnniversary(today: Date, day: Date)
    ensures AnniversaryReached(day, today, Age(today, day))
    ensures !AnniversaryReached(day, today, Age(today, day) + 1)
  {
  }

  /** The age is the year difference or one less, and one less exactly when
      this year's (month, day) has not yet reached `day`'s. */
  lemma AgeYearDifference(today: Date, day: Date)
    ensures Age(today, day) == today.year - day.year - 1 <==> PairLess(today.month, today.day, day.month, day.day)
    ensures Age(today, day) == today.year - day.year <==> !PairLess(today.month, today.day, day.month, day.day)
  {
  }

  /** A day on or before `today` has a non-negative age. */
  lemma AgeNonNegative(today: Date, day: Date)
    requires !Before(today, day)
    ensures Age(today, day) >= 0
  {
  }

  /** A day after `today` has a negative age. */
  lemma AgeNegativeInFuture(today: Date, day: Date)
    requires Before(today, day)
    ensures Age(today, day) < 0
  {
  }

  /** On an anniversary the age is exactly the year difference. */
  lemma AgeOnAnniversary(today: Date, day: Date)
    requires today.month == day.month && today.day == day.day
    ensures Age(today, day) == today.year - day.year
  {
  }

  /** The age never decreases as `today` advances. */
  lemma AgeMonotone(earlier: Date, later: Date, day: Date)
    requires !Before(later, earlier)
    ensures Age(earlier, day) <= Age(later, day)
  {
  }

  /** Example: an item of 1 March 2000, seen on 15 February 2023,
      is 22 years old, not 23. */
  lemma AgeExample()
    ensures Age(Ymd(2023, 2, 15), Ymd(2000, 3, 1)) == 22
  {
  }

  // ---------------------------------------------------------------------------
  // Zero-padded decimal digits
  // ---------------------------------------------------------------------------

  function Pow10(k: nat): (p: nat) {
    if k == 0 then 1 else 10 * Pow10(k - 1)
  }

  predicate IsDigit(c: char) {
    '0' <= c <= '9'
  }

  predicate AllDigits(s: string) {
    forall i :: 0 <= i < |s| ==> IsDigit(s[i])
  }

  function DigitChar(k: int): (c: char)
    requires 0 <= k < 10
    ensures IsDigit(c)
    ensures c as int - '0' as int == k
  {
    ('0' as int + k) as char
  }

  function DigitValue(c: char): (k: int)
    requires IsDigit(c)
    ensures 0 <= k < 10
    ensures DigitChar(k) == c
  {
    c as int - '0' as int
  }

  /** The decimal digits of `n`, zero-padded on the left to `width`
      characters, as `strftime`'s `%m`, `%d` and `%Y` write them. */
  function ZeroPad(n: nat, width: nat): (s: string)
    requires n < Pow10(width)
    ensures |s| == width
    ensures AllDigits(s)
    decreases width
  {
    if width == 0 then ""
    else ZeroPad(n / 10, width - 1) + [DigitChar(n % 10)]
  }

  /** The number a string of decimal digits denotes. */
  function DigitsValue(s: string): (n: nat)
    requires AllDigits(s)
    ensures n < Pow10(|s|)
  {
    if s == [] then 0
    else 10 * DigitsValue(s[..|s| - 1]) + DigitValue(s[|s| - 1])
  }

  /** Reading back the padded digits of `n` gives `n`. */
  lemma {:induction false} DigitsValueOfZeroPad(n: nat, width: nat)
    requires n < Pow10(width)
    ensures DigitsValue(ZeroPad(n, width)) == n
    decreases width
  {
    if width > 0 {
      var s := ZeroPad(n, width);
      assert s[..|s| - 1] == ZeroPad(n / 10, width - 1);
      assert s[|s| - 1] == DigitChar(n % 10);
      DigitsValueOfZeroPad(n / 10, width - 1);
    }
  }

  /** Padding the value of a digit string to its own length gives the string back. */
  lemma {:induction false} ZeroPadOfDigitsValue(s: string)
    requires AllDigits(s)
    ensures ZeroPad(DigitsValue(s), |s|) == s
  {
    if s != [] {
      var init, last := s[..|s| - 1], s[|s| - 1];
      var n := DigitsValue(s);
      assert n / 10 == DigitsValue(init) && n % 10 == DigitValue(last);
      ZeroPadOfDigitsValue(init);
      assert s == init + [last];
    }
  }

  // ---------------------------------------------------------------------------
  // The `%m-%d-%Y` form
  // ---------------------------------------------------------------------------

  /** The `day` getter: `strftime('%m-%d-%Y')`, a two-digit month, a dash, a
      two-digit day, a dash and a four-digit year. */
  function FormatDay(d: Date): (s: string)
    ensures |s| == 10 && s[2] == '-' && s[5] == '-'
    ensures forall i :: 0 <= i < 10 && i != 2 && i != 5 ==> IsDigit(s[i])
  {
    ZeroPad(d.month, 2) + "-" + ZeroPad(d.day, 2) + "-" + ZeroPad(d.year, 4)
  }

  /** A string of the form `MM-DD-YYYY`: ten characters, dashes at positions
      2 and 5, and digits everywhere else. */
  predicate IsDayShape(s: string) {
    |s| == 10 && s[2] == '-' && s[5] == '-'
    && AllDigits(s[0..2]) && AllDigits(s[3..5]) && AllDigits(s[6..10])
  }

  /** The inverse of `FormatDay`: the date a `MM-DD-YYYY` string names, or
      `None` when it has the wrong shape or names no calendar day. */
  function ParseDay(s: string): (r: Option<Date>)
    ensures r.Some? ==> IsDayShape(s)
  {
    if !IsDayShape(s) then None
    else
      var d := Ymd(DigitsValue(s[6..10]), DigitsValue(s[0..2]), DigitsValue(s[3..5]));
      if IsCalendarDate(d) then Some(d) else None
  }

  /** The pieces of the formatted string are the padded month, day and year. */
  lemma FormatDayPieces(d: Date)
    ensures FormatDay(d)[0..2] == ZeroPad(d.month, 2)
    ensures FormatDay(d)[3..5] == ZeroPad(d.day, 2)
    ensures FormatDay(d)[6..10] == ZeroPad(d.year, 4)
  {
  }

  /** The formatted string loses nothing: parsing it gives the date back. */
  lemma ParseFormatDay(d: Date)
    ensures ParseDay(FormatDay(d)) == Some(d)
  {
    FormatDayPieces(d);
    DigitsValueOfZeroPad(d.month, 2);
    DigitsValueOfZeroPad(d.day, 2);
    DigitsValueOfZeroPad(d.year, 4);
  }

  /** Every string the parser accepts is the formatted form of its date. */
  lemma FormatParseDay(s: string)
    requires ParseDay(s).Some?
    ensures FormatDay(ParseDay(s).value) == s
  {
    var d := ParseDay(s).value;
    FormatDayPieces(d);
    ZeroPadOfDigitsValue(s[0..2]);
    ZeroPadOfDigitsValue(s[3..5]);
    ZeroPadOfDigitsValue(s[6..10]);
    var t := FormatDay(d);
    assert t[0..2] == s[0..2] && t[3..5] == s[3..5] && t[6..10] == s[6..10];
    assert forall i :: 0 <= i < 2 ==> t[i] == t[0..2][i] && s[i] == s[0..2][i];
    assert forall i :: 3 <= i < 5 ==> t[i] == t[3..5][i - 3] && s[i] == s[3..5][i - 3];
    assert forall i :: 6 <= i < 10 ==> t[i] == t[6..10][i - 6] && s[i] == s[6..10][i - 6];
  }

  /** Distinct dates have distinct formatted strings. */
  lemma FormatDayInjective(d1: Date, d2: Date)
    requires FormatDay(d1) == FormatDay(d2)
    ensures d1 == d2
  {
    ParseFormatDay(d1);
    ParseFormatDay(d2);
  }

  /** The example of the seed data: 21 January 2023 reads "01-21-2023". */
  lemma FormatDayExample()
    ensures FormatDay(Ymd(2023, 1, 21)) == "01-21-2023"
  {
  }
}

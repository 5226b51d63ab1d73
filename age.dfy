/** `calculate_age` of `app/src/calculateAge.py`: parse a `YYYY-MM-DD`
    birthday with the rules of `datetime.strptime(..., "%Y-%m-%d")`, then count
    the whole years from it to today. Today's date is a parameter. */
module Age {
  import opened Wrappers

  datatype Date = Date(year: int, month: int, day: int)

  /** `strptime` raises `ValueError` for text that does not fit the format
      or names no calendar day. */
  datatype AgeError = ValueError

  predicate IsLeapYear(y: int) {
    y % 4 == 0 && (y % 100 != 0 || y % 400 == 0)
  }

  function DaysInMonth(y: int, m: int): (n: int)
    requires 1 <= m <= 12
    ensures 28 <= n <= 31
  {
    if m == 2 then (if IsLeapYear(y) then 29 else 28)
    else if m == 4 || m == 6 || m == 9 || m == 11 then 30
    else 31
  }

  /** A day `datetime.date` accepts. */
  predicate ValidDate(d: Date) {
    1 <= d.year <= 9999 && 1 <= d.month <= 12 && 1 <= d.day <= DaysInMonth(d.year, d.month)
  }

  // ---------------------------------------------------------------------------
  // Parsing

  predicate IsDigit(c: char) { '0' <= c <= '9' }

  predicate IsNonZeroDigit(c: char) { '1' <= c <= '9' }

  function DigitValue(c: char): (n: int)
    requires IsDigit(c)
    ensures 0 <= n <= 9
  {
    c as int - '0' as int
  }

  /** `%m` is `1[0-2]|0[1-9]|[1-9]` and a `-` must follow: the month and the
      text after that `-`. */
  function ParseMonth(s: string): (r: Option<(int, string)>)
    ensures r.Some? ==> 1 <= r.value.0 <= 12
    ensures r.Some? ==> |r.value.1| < |s|
  {
    if |s| >= 3 && s[0] == '1' && '0' <= s[1] <= '2' && s[2] == '-' then
      Some((10 + DigitValue(s[1]), s[3..]))
    else if |s| >= 3 && s[0] == '0' && IsNonZeroDigit(s[1]) && s[2] == '-' then
      Some((DigitValue(s[1]), s[3..]))
    else if |s| >= 2 && IsNonZeroDigit(s[0]) && s[1] == '-' then
      Some((DigitValue(s[0]), s[2..]))
    else None
  }

  /** `%d` is `3[01]|[12]\d|0[1-9]|[1-9]| [1-9]`, the first alternative that
      matches wins, and no text may remain after it. */
  function ParseDay(s: string): (r: Option<int>)
    ensures r.Some? ==> 1 <= r.value <= 31
  {
    if |s| >= 2 && s[0] == '3' && (s[1] == '0' || s[1] == '1') then
      (if |s| == 2 then Some(30 + DigitValue(s[1])) else None)
    else if |s| >= 2 && (s[0] == '1' || s[0] == '2') && IsDigit(s[1]) then
      (if |s| == 2 then Some(10 * DigitValue(s[0]) + DigitValue(s[1])) else None)
    else if |s| >= 2 && s[0] == '0' && IsNonZeroDigit(s[1]) then
      (if |s| == 2 then Some(DigitValue(s[1])) else None)
    else if |s| >= 1 && IsNonZeroDigit(s[0]) then
      (if |s| == 1 then Some(DigitValue(s[0])) else None)
    else if |s| >= 2 && s[0] == ' ' && IsNonZeroDigit(s[1]) then
      (if |s| == 2 then Some(DigitValue(s[1])) else None)
    else None
  }

  /** `datetime.strptime(s, "%Y-%m-%d")`: four digits of year, `-`, month,
      `-`, day, and the result must be a real calendar day from year 1 on. */
  function ParseDate(s: string): (r: Option<Date>)
    ensures r.Some? ==> ValidDate(r.value)
    ensures r.Some? ==> 8 <= |s| <= 10 && s[4] == '-'
    ensures r.Some? ==> forall k | 0 <= k < 4 :: IsDigit(s[k])
  {
    if |s| < 5 || !(IsDigit(s[0]) && IsDigit(s[1]) && IsDigit(s[2]) && IsDigit(s[3])) || s[4] != '-' then None
    else
      var year := 1000 * DigitValue(s[0]) + 100 * DigitValue(s[1]) + 10 * DigitValue(s[2]) + DigitValue(s[3]);
      match ParseMonth(s[5..]) {
        case None => None
        case Some((month, rest)) =>
          match ParseDay(rest) {
            case None => None
            case Some(day) =>
              if ValidDate(Date(year, month, day)) then Some(Date(year, month, day)) else None
          }
      }
  }

  /** The character of a decimal digit. */
  function DigitChar(n: int): char
    requires 0 <= n <= 9
  {
    ('0' as int + n) as char
  }

  /** The four-digit zero-padded text of a year. */
  function YearText(y: int): (s: string)
    requires 0 <= y <= 9999
    ensures |s| == 4
  {
    [DigitChar(y / 1000), DigitChar(y / 100 % 10), DigitChar(y / 10 % 10), DigitChar(y % 10)]
  }

  /** The two-digit zero-padded text of a number below 100. */
  function TwoDigits(n: int): (s: string)
    requires 0 <= n <= 99
    ensures |s| == 2
  {
    [DigitChar(n / 10), DigitChar(n % 10)]
  }

  /** The zero-padded `YYYY-MM-DD` text of a date. */
  function FormatDate(d: Date): (s: string)
    requires ValidDate(d)
    ensures |s| == 10
  {
    YearText(d.year) + "-" + TwoDigits(d.month) + "-" + TwoDigits(d.day)
  }

  /** The texts `%m` reads as month `m`: two digits, or one digit below 10. */
  function MonthTexts(m: int): set<string>
    requires 1 <= m <= 12
  {
    {TwoDigits(m)} + (if m < 10 then {[DigitChar(m)]} else {})
  }

  /** The texts `%d` reads as day `d`: two digits, or below 10 one digit,
      bare or after a space. */
  function DayTexts(d: int): set<string>
    requires 1 <= d <= 31
  {
    {TwoDigits(d)} + (if d < 10 then {[DigitChar(d)], [' ', DigitChar(d)]} else {})
  }

  /** `s` spells the calendar date `d` in the format `%Y-%m-%d`. */
  ghost predicate Spells(s: string, d: Date) {
    && ValidDate(d)
    && exists mt, dt | mt in MonthTexts(d.month) && dt in DayTexts(d.day) ::
         s == YearText(d.year) + "-" + mt + "-" + dt
  }

  lemma DigitRoundTrip(n: int)
    requires 0 <= n <= 9
    ensures IsDigit(DigitChar(n)) && DigitValue(DigitChar(n)) == n
  {
  }

  /** A two-digit zero-padded month followed by `-` parses back. */
  lemma MonthRoundTrip(m: int, rest: string)
    requires 1 <= m <= 12
    ensures ParseMonth([DigitChar(m / 10), DigitChar(m % 10), '-'] + rest) == Some((m, rest))
  {
    var s := [DigitChar(m / 10), DigitChar(m % 10), '-'] + rest;
    DigitRoundTrip(m / 10);
    DigitRoundTrip(m % 10);
    assert s[3..] == rest;
  }

  /** A two-digit zero-padded day parses back. */
  lemma DayRoundTrip(d: int)
    requires 1 <= d <= 31
    ensures ParseDay([DigitChar(d / 10), DigitChar(d % 10)]) == Some(d)
  {
    DigitRoundTrip(d / 10);
    DigitRoundTrip(d % 10);
  }

  /** The four decimal digits of a year below 10000 make up the year. */
  lemma YearDigits(y: int)
    requires 0 <= y <= 9999
    ensures 1000 * (y / 1000) + 100 * (y / 100 % 10) + 10 * (y / 10 % 10) + y % 10 == y
  {
    var a, b := y / 10, y % 10;
    assert y == 10 * a + b;
    assert a / 10 == y / 100;
    assert a % 10 == y / 10 % 10;
    var c := a / 10;
    assert a == 10 * c + a % 10;
    assert c / 10 == y / 1000;
    assert c % 10 == y / 100 % 10;
    assert c == 10 * (c / 10) + c % 10;
  }

  /** Every spelling `%m` accepts for a month parses back to that month. */
  lemma MonthParses(m: int, mt: string, rest: string)
    requires 1 <= m <= 12 && mt in MonthTexts(m)
    ensures ParseMonth(mt + "-" + rest) == Some((m, rest))
  {
    var t := mt + "-" + rest;
    if mt == TwoDigits(m) {
      assert t == [DigitChar(m / 10), DigitChar(m % 10), '-'] + rest;
      MonthRoundTrip(m, rest);
    } else {
      DigitRoundTrip(m);
      assert t[2..] == rest;
    }
  }

  /** Every spelling `%d` accepts for a day parses back to that day. */
  lemma DayParses(d: int, dt: string)
    requires 1 <= d <= 31 && dt in DayTexts(d)
    ensures ParseDay(dt) == Some(d)
  {
    if dt == TwoDigits(d) {
      DayRoundTrip(d);
    } else {
      DigitRoundTrip(d);
    }
  }

  /** A month `ParseMonth` reads was spelled in one of the ways `%m` accepts. */
  lemma MonthSpelled(t: string) returns (mt: string)
    requires ParseMonth(t).Some?
    ensures mt in MonthTexts(ParseMonth(t).value.0) && t == mt + "-" + ParseMonth(t).value.1
  {
    var m := ParseMonth(t).value.0;
    if |t| >= 3 && t[0] == '1' && '0' <= t[1] <= '2' && t[2] == '-' {
      mt := t[..2];
      assert m / 10 == 1 && m % 10 == DigitValue(t[1]);
      assert mt == TwoDigits(m);
    } else if |t| >= 3 && t[0] == '0' && IsNonZeroDigit(t[1]) && t[2] == '-' {
      mt := t[..2];
      assert m / 10 == 0 && m % 10 == DigitValue(t[1]);
      assert mt == TwoDigits(m);
    } else {
      mt := t[..1];
      assert mt == [DigitChar(m)];
    }
    assert t == mt + "-" + t[|mt| + 1..];
  }

  /** A day `ParseDay` reads was spelled in one of the ways `%d` accepts. */
  lemma DaySpelled(t: string)
    requires ParseDay(t).Some?
    ensures t in DayTexts(ParseDay(t).value)
  {
    var d := ParseDay(t).value;
    if |t| >= 2 && t[0] == '3' && (t[1] == '0' || t[1] == '1') {
      assert d / 10 == 3 && d % 10 == DigitValue(t[1]);
      assert t == TwoDigits(d);
    } else if |t| >= 2 && (t[0] == '1' || t[0] == '2') && IsDigit(t[1]) {
      assert d / 10 == DigitValue(t[0]) && d % 10 == DigitValue(t[1]);
      assert t == TwoDigits(d);
    } else if |t| >= 2 && t[0] == '0' && IsNonZeroDigit(t[1]) {
      assert d / 10 == 0 && d % 10 == DigitValue(t[1]);
      assert t == TwoDigits(d);
    } else if |t| >= 1 && IsNonZeroDigit(t[0]) {
      assert t == [DigitChar(d)];
    } else {
      assert t == [' ', DigitChar(d)];
    }
  }

  /** Four digits spell the year they denote. */
  lemma YearSpelled(s: string)
    requires |s| >= 4 && forall k | 0 <= k < 4 :: IsDigit(s[k])
    ensures var y := 1000 * DigitValue(s[0]) + 100 * DigitValue(s[1]) + 10 * DigitValue(s[2]) + DigitValue(s[3]);
      0 <= y <= 9999 && YearText(y) == s[..4]
  {
    var a, b, c, e := DigitValue(s[0]), DigitValue(s[1]), DigitValue(s[2]), DigitValue(s[3]);
    var y := 1000 * a + 100 * b + 10 * c + e;
    assert y / 10 == 100 * a + 10 * b + c && y % 10 == e;
    assert y / 100 == 10 * a + b && y / 10 % 10 == c;
    assert y / 1000 == a && y / 100 % 10 == b;
  }

  /** A text that parses spells the date it parses to. */
  lemma SpelledFromParse(s: string)
    requires ParseDate(s).Some?
    ensures Spells(s, ParseDate(s).value)
  {
    var d := ParseDate(s).value;
    YearSpelled(s);
    var mt := MonthSpelled(s[5..]);
    var rest := ParseMonth(s[5..]).value.1;
    DaySpelled(rest);
    assert s == s[..4] + "-" + s[5..];
    assert s == YearText(d.year) + "-" + mt + "-" + rest;
  }

  /** A spelling of a valid date parses to that date. */
  lemma ParseFromSpelled(s: string, d: Date)
    requires Spells(s, d)
    ensures ParseDate(s) == Some(d)
  {
    var mt, dt :| mt in MonthTexts(d.month) && dt in DayTexts(d.day) && s == YearText(d.year) + "-" + mt + "-" + dt;
    var y := d.year;
    DigitRoundTrip(y / 1000);
    DigitRoundTrip(y / 100 % 10);
    DigitRoundTrip(y / 10 % 10);
    DigitRoundTrip(y % 10);
    YearDigits(y);
    assert s[..4] == YearText(y);
    assert s[5..] == mt + "-" + dt;
    MonthParses(d.month, mt, dt);
    DayParses(d.day, dt);
  }

  /** `strptime(s, "%Y-%m-%d")` gives the date `d` exactly when `d` is a
      real calendar date and `s` is four year digits, `-`, the month in one
      or two digits, `-`, and the day in two digits or, below 10, in one digit
      with or without a leading space. Every other text raises. */
  lemma ParseDateSpells(s: string, d: Date)
    ensures ParseDate(s) == Some(d) <==> Spells(s, d)
  {
    if ParseDate(s) == Some(d) {
      SpelledFromParse(s);
    }
    if Spells(s, d) {
      ParseFromSpelled(s, d);
    }
  }

  /** Formatting a valid date and parsing the text gives the date back. */
  lemma ParseFormat(d: Date)
    requires ValidDate(d)
    ensures ParseDate(FormatDate(d)) == Some(d)
  {
    assert TwoDigits(d.month) in MonthTexts(d.month);
    assert TwoDigits(d.day) in DayTexts(d.day);
    ParseFromSpelled(FormatDate(d), d);
  }

  // ---------------------------------------------------------------------------
  // Age

  /** `(m1, d1)` comes before `(m2, d2)` in the calendar year. */
  predicate EarlierInYear(m1: int, d1: int, m2: int, d2: int) {
    m1 < m2 || (m1 == m2 && d1 < d2)
  }

  /** The birthday's `n`-th anniversary, as a (year, month, day) triple, is
      on or before `today`. Anniversaries are compared as triples, so a
      29 February birthday counts as reached on 1 March of a common year. */
  predicate ReachedAnniversary(birth: Date, today: Date, n: int) {
    birth.year + n < today.year
    || (birth.year + n == today.year && !EarlierInYear(today.month, today.day, birth.month, birth.day))
  }

  /** The year difference, less one while this year's birthday is still ahead. */
  function AgeOn(birth: Date, today: Date): (age: int)
    ensures ReachedAnniversary(birth, today, age)
    ensures !ReachedAnniversary(birth, today, age + 1)
  {
    var age := today.year - birth.year;
    if EarlierInYear(today.month, today.day, birth.month, birth.day) then age - 1 else age
  }

  /** `calculate_age`: a birthday text that does not parse raises `ValueError`;
      otherwise the number of whole years from it to `today`. */
  function CalculateAge(birthday: string, today: Date): (r: Result<int, AgeError>)
    ensures ParseDate(birthday).None? ==> r == Failure(ValueError)
    ensures ParseDate(birthday).Some? ==>
      var birth := ParseDate(birthday).value;
      && r.Success?
      && ReachedAnniversary(birth, today, r.value)
      && !ReachedAnniversary(birth, today, r.value + 1)
  {
    match ParseDate(birthday) {
      case None => Failure(ValueError)
      case Some(birth) => Success(AgeOn(birth, today))
    }
  }

  /** The age is the only count of anniversaries that are reached while the
      next one is not. */
  lemma AgeUnique(birth: Date, today: Date, n: int)
    requires ReachedAnniversary(birth, today, n) && !ReachedAnniversary(birth, today, n + 1)
    ensures n == AgeOn(birth, today)
  {
    var a := AgeOn(birth, today);
    if n < a {
      AnniversaryMonotone(birth, today, n + 1, a);
    } else if n > a {
      AnniversaryMonotone(birth, today, a + 1, n);
    }
  }

  /** A later anniversary reached means every earlier one is reached. */
  lemma AnniversaryMonotone(birth: Date, today: Date, m: int, n: int)
    requires m <= n && ReachedAnniversary(birth, today, n)
    ensures ReachedAnniversary(birth, today, m)
  {
  }

  /** No one born on or before today has a negative age. */
  lemma AgeNonNegative(birth: Date, today: Date)
    requires birth.year < today.year
      || (birth.year == today.year && !EarlierInYear(today.month, today.day, birth.month, birth.day))
    ensures AgeOn(birth, today) >= 0
  {
    if AgeOn(birth, today) < 0 {
      AnniversaryMonotone(birth, today, AgeOn(birth, today) + 1, 0);
    }
  }

  /** On the birthday itself the year is already complete: the day comparison is strict. */
  lemma BirthdayCounts(birth: Date, today: Date)
    requires today.month == birth.month && today.day == birth.day
    ensures AgeOn(birth, today) == today.year - birth.year
  {
  }
}

/**
 * `age_from_string` of `cogs/aboutme.py`: a birthday typed as
 * `dd.mm.yyyy` (either separator may be `.` or `/`) is checked against the
 * pattern, turned into a calendar date, and the age on a given day is the
 * difference in years, less one while this year's birthday is still ahead.
 */
module AboutDates {
  import opened Options

  datatype Date = Date(year: int, month: int, day: int)

  /** `\d`, restricted to the ASCII digits */
  predicate IsDigit(c: char) {
    '0' <= c <= '9'
  }

  function DigitValue(c: char): nat
    requires IsDigit(c)
  {
    c as int - '0' as int
  }

  /** `[./]` */
  predicate IsSep(c: char) {
    c == '.' || c == '/'
  }

  /** `0[1-9]|[12][0-9]|3[01]` */
  predicate DayField(a: char, b: char) {
    || (a == '0' && '1' <= b <= '9')
    || ((a == '1' || a == '2') && IsDigit(b))
    || (a == '3' && (b == '0' || b == '1'))
  }

  /** `0[1-9]|1[0-2]` */
  predicate MonthField(a: char, b: char) {
    || (a == '0' && '1' <= b <= '9')
    || (a == '1' && '0' <= b <= '2')
  }

  /**
   * `re.match(r'^(0[1-9]|[12][0-9]|3[01])[./](0[1-9]|1[0-2])[./]\d{4}$', s)`:
   * `$` also matches just before a final newline.
   */
  predicate Matches(s: string) {
    && (|s| == 10 || (|s| == 11 && s[10] == '\n'))
    && DayField(s[0], s[1]) && IsSep(s[2])
    && MonthField(s[3], s[4]) && IsSep(s[5])
    && IsDigit(s[6]) && IsDigit(s[7]) && IsDigit(s[8]) && IsDigit(s[9])
  }

  /**
   * `map(int, re.split(r'[./]', s))` on a matching string: the three
   * numbers (`int` ignores the trailing newline).
   */
  function ParseDate(s: string): (d: Date)
    requires Matches(s)
    ensures 1 <= d.day <= 31 && 1 <= d.month <= 12 && 0 <= d.year <= 9999
  {
    Date(
      1000 * DigitValue(s[6]) + 100 * DigitValue(s[7]) + 10 * DigitValue(s[8]) + DigitValue(s[9]),
      10 * DigitValue(s[3]) + DigitValue(s[4]),
      10 * DigitValue(s[0]) + DigitValue(s[1]))
  }

  predicate IsLeap(y: int) {
    y % 4 == 0 && (y % 100 != 0 || y % 400 == 0)
  }

  function DaysInMonth(y: int, m: int): int
    requires 1 <= m <= 12
  {
    if m == 2 then (if IsLeap(y) then 29 else 28)
    else if m == 4 || m == 6 || m == 9 || m == 11 then 30
    else 31
  }

  /** The dates `datetime.datetime(year, month, day)` accepts; any other raises `ValueError`. */
  predicate IsCalendarDate(d: Date) {
    1 <= d.year <= 9999 && 1 <= d.month <= 12 && 1 <= d.day <= DaysInMonth(d.year, d.month)
  }

  /** `(m1, d1) < (m2, d2)` on tuples */
  predicate Before(m1: int, d1: int, m2: int, d2: int) {
    m1 < m2 || (m1 == m2 && d1 < d2)
  }

  /** The age arithmetic of cogs/aboutme.py:329-333 */
  function AgeOn(birth: Date, today: Date): int {
    today.year - birth.year - (if Before(today.month, today.day, birth.month, birth.day) then 1 else 0)
  }

  /**
   * `age_from_string(s)` with `datetime.date.today()` given as `today`: `None`
   * when the pattern does not match, and `None` as well when the date does
   * not exist, since the constructor's exception is caught and logged.
   */
  function AgeFromString(s: string, today: Date): (r: Option<int>)
    ensures r.Some? <==> Matches(s) && IsCalendarDate(ParseDate(s))
    ensures r.Some? ==> r.value == AgeOn(ParseDate(s), today)
  {
    if !Matches(s) then None
    else
      var birth := ParseDate(s);
      if IsCalendarDate(birth) then Some(AgeOn(birth, today)) else None
  }

  /** The k-th birthday falls on or before `today`, comparing (year, month, day). */
  predicate Reached(birth: Date, k: int, today: Date) {
    var y := birth.year + k;
    y < today.year || (y == today.year && !Before(today.month, today.day, birth.month, birth.day))
  }

  /** The age is the number of the last birthday that has come: that one has, the next has not. */
  lemma AgeCountsBirthdays(birth: Date, today: Date)
    ensures Reached(birth, AgeOn(birth, today), today)
    ensures !Reached(birth, AgeOn(birth, today) + 1, today)
    ensures forall k :: Reached(birth, k, today) ==> k <= AgeOn(birth, today)
  {
  }

  function DigitChar(n: nat): (c: char)
    requires n < 10
    ensures IsDigit(c) && DigitValue(c) == n
  {
    ('0' as int + n) as char
  }

  /** A calendar date written as `dd.mm.yyyy` */
  function Format(d: Date): (s: string)
    requires IsCalendarDate(d)
    ensures |s| == 10
  {
    var y := d.year;
    [DigitChar(d.day / 10), DigitChar(d.day % 10), '.',
     DigitChar(d.month / 10), DigitChar(d.month % 10), '.',
     DigitChar(y / 10 / 10 / 10), DigitChar(y / 10 / 10 % 10),
     DigitChar(y / 10 % 10), DigitChar(y % 10)]
  }

  /** The last decimal digit and the rest */
  lemma SplitTen(n: nat)
    ensures n == 10 * (n / 10) + n % 10 && n % 10 < 10
  {
  }

  lemma SplitTwo(n: nat)
    requires n < 100
    ensures n / 10 < 10 && 10 * (n / 10) + n % 10 == n
  {
    SplitTen(n);
  }

  lemma SplitFour(n: nat)
    requires n < 10000
    ensures n / 10 / 10 / 10 < 10
    ensures 1000 * (n / 10 / 10 / 10) + 100 * (n / 10 / 10 % 10) + 10 * (n / 10 % 10) + n % 10 == n
  {
    SplitTen(n);
    SplitTen(n / 10);
    SplitTen(n / 10 / 10);
  }

  lemma JoinTwo(a: nat, b: nat)
    requires b < 10
    ensures (10 * a + b) / 10 == a && (10 * a + b) % 10 == b
  {
  }

  lemma JoinFour(a: nat, b: nat, c: nat, e: nat)
    requires a < 10 && b < 10 && c < 10 && e < 10
    ensures var n := 1000 * a + 100 * b + 10 * c + e;
      n / 10 / 10 / 10 == a && n / 10 / 10 % 10 == b && n / 10 % 10 == c && n % 10 == e
  {
    var n := 1000 * a + 100 * b + 10 * c + e;
    var x := 100 * a + 10 * b + c;
    assert n == 10 * x + e;
    JoinTwo(x, e);
    assert x == 10 * (10 * a + b) + c;
    JoinTwo(10 * a + b, c);
    JoinTwo(a, b);
  }

  /** Every calendar date, written out, matches the pattern and reads back as itself. */
  lemma FormatParses(d: Date)
    requires IsCalendarDate(d)
    ensures Matches(Format(d))
    ensures ParseDate(Format(d)) == d
  {
    var s := Format(d);
    SplitTwo(d.day);
    SplitTwo(d.month);
    SplitFour(d.year);
    assert DayField(s[0], s[1]) by {
      assert d.day / 10 <= 3;
      if d.day / 10 == 3 {
        assert d.day % 10 <= 1;
      }
    }
    assert MonthField(s[3], s[4]);
  }

  /** A matching string with `.` separators is the formatting of what it parses to, when that is a date. */
  lemma ParseFormats(s: string)
    requires Matches(s) && |s| == 10 && s[2] == '.' && s[5] == '.'
    requires IsCalendarDate(ParseDate(s))
    ensures Format(ParseDate(s)) == s
  {
    var d := ParseDate(s);
    FieldChars(s[0], s[1]);
    FieldChars(s[3], s[4]);
    YearChars(s[6], s[7], s[8], s[9]);
    var f := Format(d);
    assert f == [s[0], s[1], '.', s[3], s[4], '.', s[6], s[7], s[8], s[9]];
    assert forall k :: 0 <= k < 10 ==> f[k] == s[k];
  }

  /** A two-digit field written back gives its two characters. */
  lemma FieldChars(hi: char, lo: char)
    requires IsDigit(hi) && IsDigit(lo)
    ensures var n := 10 * DigitValue(hi) + DigitValue(lo);
      DigitChar(n / 10) == hi && DigitChar(n % 10) == lo
  {
    JoinTwo(DigitValue(hi), DigitValue(lo));
  }

  /** A four-digit year written back gives its four characters. */
  lemma YearChars(a: char, b: char, c: char, e: char)
    requires IsDigit(a) && IsDigit(b) && IsDigit(c) && IsDigit(e)
    ensures var y := 1000 * DigitValue(a) + 100 * DigitValue(b) + 10 * DigitValue(c) + DigitValue(e);
      && DigitChar(y / 10 / 10 / 10) == a && DigitChar(y / 10 / 10 % 10) == b
      && DigitChar(y / 10 % 10) == c && DigitChar(y % 10) == e
  {
    JoinFour(DigitValue(a), DigitValue(b), DigitValue(c), DigitValue(e));
  }

  /** 31 February matches the pattern but is no date, so no age is given. */
  lemma NoThirtyFirstOfFebruary(today: Date)
    ensures AgeFromString("31.02.2000", today) == None
  {
    assert Matches("31.02.2000");
    assert ParseDate("31.02.2000") == Date(2000, 2, 31);
  }

  /** Year 0000 matches `\d{4}` but `datetime` starts at year 1. */
  lemma NoYearZero(today: Date)
    ensures AgeFromString("01/01/0000", today) == None
  {
    assert Matches("01/01/0000");
    assert ParseDate("01/01/0000") == Date(0, 1, 1);
  }

  /** 29 February exists in leap years only; separators may be mixed; a final newline is accepted. */
  lemma LeapDay(today: Date)
    ensures AgeFromString("29.02.2000", today).Some?
    ensures AgeFromString("29/02.1900", today) == None
    ensures AgeFromString("29.02.2000\n", Date(2024, 2, 28)) == Some(23)
    ensures AgeFromString("29.02.2000\n", Date(2024, 2, 29)) == Some(24)
  {
    assert Matches("29.02.2000") && ParseDate("29.02.2000") == Date(2000, 2, 29);
    assert Matches("29/02.1900") && ParseDate("29/02.1900") == Date(1900, 2, 29);
    assert Matches("29.02.2000\n") && ParseDate("29.02.2000\n") == Date(2000, 2, 29);
  }

  /** A date that does not fit the pattern gives no age: a single-digit day, a 13th month, a two-digit year. */
  lemma MalformedIsNone(today: Date)
    ensures AgeFromString("1.01.2000", today) == None
    ensures AgeFromString("01.13.2000", today) == None
    ensures AgeFromString("01.01.00", today) == None
    ensures AgeFromString("01-01-2000", today) == None
  {
    assert !MonthField('1', '3');
  }
}

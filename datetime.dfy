/**
 * Naive date-times as Python's `datetime.datetime` holds them (to the second),
 * their ordering, and `datetime.strptime` for the one format the P2000 sensor
 * uses, `" %d %b %Y %H:%M:%S"`, together with the canonical rendering that
 * format reads back.
 */
module DateTime {
  import opened Builtins

  datatype Timestamp = Timestamp(year: int, month: int, day: int, hour: int, minute: int, second: int)

  predicate IsLeapYear(year: int) {
    year % 4 == 0 && (year % 100 != 0 || year % 400 == 0)
  }

  function DaysInMonth(year: int, month: int): (n: int)
    requires 1 <= month <= 12
    ensures 28 <= n <= 31
    ensures month == 2 ==> (n == 29 <==> IsLeapYear(year))
  {
    if month == 2 then (if IsLeapYear(year) then 29 else 28)
    else if month == 4 || month == 6 || month == 9 || month == 11 then 30
    else 31
  }

  /** The date-times the `datetime` constructor accepts (years 1 to 9999, real calendar days). */
  predicate Valid(t: Timestamp) {
    && 1 <= t.year <= 9999
    && 1 <= t.month <= 12
    && 1 <= t.day <= DaysInMonth(t.year, t.month)
    && 0 <= t.hour <= 23
    && 0 <= t.minute <= 59
    && 0 <= t.second <= 59
  }

  /** `a < b` on datetimes: the fields compared lexicographically, year first. */
  predicate Before(a: Timestamp, b: Timestamp) {
    if a.year != b.year then a.year < b.year
    else if a.month != b.month then a.month < b.month
    else if a.day != b.day then a.day < b.day
    else if a.hour != b.hour then a.hour < b.hour
    else if a.minute != b.minute then a.minute < b.minute
    else a.second < b.second
  }

  lemma BeforeIrreflexive(a: Timestamp)
    ensures !Before(a, a)
  {
  }

  lemma BeforeTransitive(a: Timestamp, b: Timestamp, c: Timestamp)
    requires Before(a, b) && Before(b, c)
    ensures Before(a, c)
  {
  }

  /** "Not earlier than" is transitive. */
  lemma NotBeforeTransitive(a: Timestamp, b: Timestamp, c: Timestamp)
    requires !Before(a, b) && !Before(b, c)
    ensures !Before(a, c)
  {
  }

  /** Any two different date-times are ordered one way or the other. */
  lemma BeforeTotal(a: Timestamp, b: Timestamp)
    ensures a == b || Before(a, b) || Before(b, a)
  {
  }

  /** The later of two date-times, `max(a, b)`. */
  function Later(a: Timestamp, b: Timestamp): (r: Timestamp)
    ensures r == a || r == b
    ensures !Before(r, a) && !Before(r, b)
  {
    if Before(a, b) then b else a
  }

  predicate IsDigit(c: char) {
    '0' <= c <= '9'
  }

  function DigitValue(c: char): (n: int)
    requires IsDigit(c)
    ensures 0 <= n <= 9
  {
    c as int - '0' as int
  }

  function DigitChar(n: int): (c: char)
    requires 0 <= n <= 9
    ensures IsDigit(c) && DigitValue(c) == n
  {
    (n + '0' as int) as char
  }

  /** ASCII lower-casing, as `%b` matches month names regardless of case. */
  function Lower(c: char): char {
    if 'A' <= c <= 'Z' then (c as int + 32) as char else c
  }

  /** Equal up to the case of ASCII letters. */
  predicate EqualIgnoringCase(a: string, b: string) {
    |a| == |b| && forall i :: 0 <= i < |a| ==> Lower(a[i]) == Lower(b[i])
  }

  /** Two three-letter names that are equal up to case. */
  predicate SameLetters(a: string, b: string) {
    && |a| == 3 && |b| == 3
    && Lower(a[0]) == Lower(b[0]) && Lower(a[1]) == Lower(b[1]) && Lower(a[2]) == Lower(b[2])
  }

  /** The abbreviated English name of month `m`, as `%b` writes and reads it. */
  function MonthName(m: int): (name: string)
    requires 1 <= m <= 12
    ensures |name| == 3
  {
    if m == 1 then "Jan" else if m == 2 then "Feb" else if m == 3 then "Mar"
    else if m == 4 then "Apr" else if m == 5 then "May" else if m == 6 then "Jun"
    else if m == 7 then "Jul" else if m == 8 then "Aug" else if m == 9 then "Sep"
    else if m == 10 then "Oct" else if m == 11 then "Nov" else "Dec"
  }

  /** The first month, from `m` on, whose name matches `name` regardless of case. */
  function MonthFrom(name: string, m: int): (r: Option<int>)
    requires 1 <= m
    ensures r.Some? ==> m <= r.value <= 12 && SameLetters(name, MonthName(r.value))
    ensures forall k :: m <= k <= 12 && SameLetters(name, MonthName(k)) ==> r.Some? && r.value <= k
    decreases 13 - m
  {
    if m > 12 then None
    else if SameLetters(name, MonthName(m)) then Some(m)
    else MonthFrom(name, m + 1)
  }

  /** `%b`: the month a three-letter name stands for, case-insensitive. */
  function MonthNumber(name: string): (r: Option<int>)
    ensures r.Some? ==> 1 <= r.value <= 12 && SameLetters(name, MonthName(r.value))
    ensures r.None? ==> forall k :: 1 <= k <= 12 ==> !SameLetters(name, MonthName(k))
  {
    MonthFrom(name, 1)
  }

  /** No two month names are equal, even ignoring case. */
  lemma MonthNamesDistinct(k: int, m: int)
    requires 1 <= k <= 12 && 1 <= m <= 12
    requires SameLetters(MonthName(m), MonthName(k))
    ensures k == m
  {
  }

  lemma MonthNumberOfName(m: int)
    requires 1 <= m <= 12
    ensures MonthNumber(MonthName(m)) == Some(m)
  {
    assert SameLetters(MonthName(m), MonthName(m));
    var k := MonthNumber(MonthName(m)).value;
    MonthNamesDistinct(k, m);
  }

  /** The two-digit number at positions `i`, `i + 1`. */
  function TwoDigits(s: string, i: nat): (n: int)
    requires i + 1 < |s| && IsDigit(s[i]) && IsDigit(s[i + 1])
    ensures 0 <= n <= 99
  {
    10 * DigitValue(s[i]) + DigitValue(s[i + 1])
  }

  /** The four-digit number at positions `i` to `i + 3`. */
  function FourDigits(s: string, i: nat): (n: int)
    requires i + 3 < |s| && IsDigit(s[i]) && IsDigit(s[i + 1]) && IsDigit(s[i + 2]) && IsDigit(s[i + 3])
    ensures 0 <= n <= 9999
  {
    100 * TwoDigits(s, i) + TwoDigits(s, i + 2)
  }

  /** The fixed layout `" DD Mon YYYY HH:MM:SS"` the format describes, month left unchecked. */
  predicate Shaped(s: string) {
    && |s| == 21
    && s[0] == ' ' && IsDigit(s[1]) && IsDigit(s[2])
    && s[3] == ' '
    && s[7] == ' ' && IsDigit(s[8]) && IsDigit(s[9]) && IsDigit(s[10]) && IsDigit(s[11])
    && s[12] == ' ' && IsDigit(s[13]) && IsDigit(s[14])
    && s[15] == ':' && IsDigit(s[16]) && IsDigit(s[17])
    && s[18] == ':' && IsDigit(s[19]) && IsDigit(s[20])
  }

  /**
   * `datetime.datetime.strptime(s, " %d %b %Y %H:%M:%S")` on inputs of the
   * fixed layout; anything else, an unknown month name or a date-time the
   * calendar does not have raises ValueError.
   */
  function Strptime(s: string): (r: Result<Timestamp>)
    ensures r.Ok? ==> Valid(r.value) && Shaped(s)
    ensures r.Raise? ==> r.error == ValueError
  {
    if !Shaped(s) then Raise(ValueError)
    else match MonthNumber(s[4..7])
      case None => Raise(ValueError)
      case Some(m) =>
        var t := Timestamp(FourDigits(s, 8), m, TwoDigits(s, 1), TwoDigits(s, 13), TwoDigits(s, 16), TwoDigits(s, 19));
        if Valid(t) then Ok(t) else Raise(ValueError)
  }

  /** The canonical text of a valid date-time in the layout `" %d %b %Y %H:%M:%S"`, which `Strptime` reads back. */
  function Format(t: Timestamp): (s: string)
    requires Valid(t)
    ensures |s| == 21
  {
    var name := MonthName(t.month);
    [ ' ', DigitChar(t.day / 10), DigitChar(t.day % 10),
      ' ', name[0], name[1], name[2],
      ' ', DigitChar(t.year / 1000), DigitChar(t.year / 100 % 10), DigitChar(t.year / 10 % 10), DigitChar(t.year % 10),
      ' ', DigitChar(t.hour / 10), DigitChar(t.hour % 10),
      ':', DigitChar(t.minute / 10), DigitChar(t.minute % 10),
      ':', DigitChar(t.second / 10), DigitChar(t.second % 10) ]
  }

  lemma FourDigitSplit(y: int)
    requires 0 <= y <= 9999
    ensures 100 * (10 * (y / 1000) + y / 100 % 10) + (10 * (y / 10 % 10) + y % 10) == y
  {
    var hi, lo := y / 100, y % 100;
    assert y == 100 * hi + lo;
    assert hi == 10 * (y / 1000) + hi % 10;
    assert lo == 10 * (y / 10 % 10) + y % 10;
  }

  /** Parsing the canonical text of a valid date-time gives it back. */
  lemma ParseFormat(t: Timestamp)
    requires Valid(t)
    ensures Strptime(Format(t)) == Ok(t)
  {
    var s := Format(t);
    assert Shaped(s);
    assert s[4..7] == MonthName(t.month);
    MonthNumberOfName(t.month);
    FourDigitSplit(t.year);
    assert FourDigits(s, 8) == t.year;
    assert TwoDigits(s, 1) == t.day;
    assert TwoDigits(s, 13) == t.hour;
    assert TwoDigits(s, 16) == t.minute;
    assert TwoDigits(s, 19) == t.second;
  }

  lemma DigitCharOfValue(c: char)
    requires IsDigit(c)
    ensures DigitChar(DigitValue(c)) == c
  {
  }

  /** Rendering a two-digit number read from a text writes the same two digits. */
  lemma TwoDigitsChars(s: string, i: nat)
    requires i + 1 < |s| && IsDigit(s[i]) && IsDigit(s[i + 1])
    ensures DigitChar(TwoDigits(s, i) / 10) == s[i] && DigitChar(TwoDigits(s, i) % 10) == s[i + 1]
  {
    DigitCharOfValue(s[i]);
    DigitCharOfValue(s[i + 1]);
  }

  /** The decimal digits of `1000 a + 100 b + 10 c + d` are `a`, `b`, `c`, `d`. */
  lemma DecimalDigits(a: int, b: int, c: int, d: int)
    requires 0 <= a <= 9 && 0 <= b <= 9 && 0 <= c <= 9 && 0 <= d <= 9
    ensures var y := 1000 * a + 100 * b + 10 * c + d;
      y / 1000 == a && y / 100 % 10 == b && y / 10 % 10 == c && y % 10 == d
  {
    var y := 1000 * a + 100 * b + 10 * c + d;
    assert y / 10 == 100 * a + 10 * b + c && y % 10 == d;
    assert y / 100 == 10 * a + b;
    assert (10 * a + b) % 10 == b;
    assert (100 * a + 10 * b + c) % 10 == c;
  }

  lemma FourDigitsChars(s: string, i: nat)
    requires i + 3 < |s| && IsDigit(s[i]) && IsDigit(s[i + 1]) && IsDigit(s[i + 2]) && IsDigit(s[i + 3])
    ensures var y := FourDigits(s, i);
      && DigitChar(y / 1000) == s[i] && DigitChar(y / 100 % 10) == s[i + 1]
      && DigitChar(y / 10 % 10) == s[i + 2] && DigitChar(y % 10) == s[i + 3]
  {
    var a, b, c, d := DigitValue(s[i]), DigitValue(s[i + 1]), DigitValue(s[i + 2]), DigitValue(s[i + 3]);
    assert FourDigits(s, i) == 1000 * a + 100 * b + 10 * c + d;
    DecimalDigits(a, b, c, d);
    DigitCharOfValue(s[i]);
    DigitCharOfValue(s[i + 1]);
    DigitCharOfValue(s[i + 2]);
    DigitCharOfValue(s[i + 3]);
  }

  /**
   * Every text the parse accepts is the canonical text of the date-time it
   * yields, up to the case of the month name.
   */
  lemma FormatParse(s: string)
    requires Strptime(s).Ok?
    ensures EqualIgnoringCase(s, Format(Strptime(s).value))
  {
    var t := Strptime(s).value;
    var f := Format(t);
    TwoDigitsChars(s, 1);
    FourDigitsChars(s, 8);
    TwoDigitsChars(s, 13);
    TwoDigitsChars(s, 16);
    TwoDigitsChars(s, 19);
    var n := MonthName(t.month);
    assert SameLetters(s[4..7], n);
    assert Lower(s[4]) == Lower(f[4]) && Lower(s[5]) == Lower(f[5]) && Lower(s[6]) == Lower(f[6]);
    forall i | 0 <= i < 21 && i != 4 && i != 5 && i != 6 ensures s[i] == f[i] {
    }
  }
}

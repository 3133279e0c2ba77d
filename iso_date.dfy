/**
 * `java.time.LocalDate` as far as the library app uses it: reading a date of
 * birth with `DateTimeFormatter.ISO_LOCAL_DATE` (strict `YYYY-MM-DD` on the
 * proleptic Gregorian calendar) and writing it with `LocalDate.toString`.
 */
module IsoDate {
  import opened Wrappers
  import opened JavaLang

  datatype Date = Date(year: int, month: int, day: int)

  const MinYear: int := -999_999_999
  const MaxYear: int := 999_999_999

  predicate IsLeapYear(y: int) {
    y % 4 == 0 && (y % 100 != 0 || y % 400 == 0)
  }

  function DaysInMonth(y: int, m: int): (n: int)
    requires 1 <= m <= 12
    ensures 28 <= n <= 31
  {
    if m == 2 then (if IsLeapYear(y) then 29 else 28)
    else if m == 4 || m == 6 || m == 9 || m == 11 then 30
    else 31
  }

  /** A day that exists in the ISO calendar, within `LocalDate`'s year range. */
  predicate ValidDate(d: Date) {
    MinYear <= d.year <= MaxYear && 1 <= d.month <= 12 && 1 <= d.day <= DaysInMonth(d.year, d.month)
  }

  function Pad2(n: nat): (s: string)
    requires n < 100
    ensures |s| == 2 && AllDigits(s)
  {
    [DigitChar(n / 10), DigitChar(n % 10)]
  }

  function Pad4(n: nat): (s: string)
    requires n < 10000
    ensures |s| == 4 && AllDigits(s)
  {
    [DigitChar(n / 1000), DigitChar(n / 100 % 10), DigitChar(n / 10 % 10), DigitChar(n % 10)]
  }

  /** The year as `LocalDate.toString` writes it: at least four digits, a
      minus sign for years before year 0 and a plus sign after year 9999. */
  function YearText(y: int): string {
    if -1000 < y < 0 then "-" + Pad4(-y)
    else if 0 <= y <= 9999 then Pad4(y)
    else if y > 9999 then "+" + IntToString(y)
    else IntToString(y)
  }

  /** The values a `LocalDate` can hold. */
  type LocalDate = d: Date | ValidDate(d) witness Date(1970, 1, 1)

  /** `LocalDate.toString`. */
  function Format(d: Date): (s: string)
    requires ValidDate(d)
    ensures |s| >= 8 && s[|s| - 6] == '-' && s[|s| - 3] == '-'
    ensures AllDigits(s[|s| - 5..|s| - 3]) && AllDigits(s[|s| - 2..])
    ensures 0 <= d.year <= 9999 ==> |s| == 10 && AllDigits(s[..4])
  {
    YearText(d.year) + "-" + Pad2(d.month) + "-" + Pad2(d.day)
  }

  /** `LocalDate.parse(s, ISO_LOCAL_DATE)` for four-digit years: exactly
      `YYYY-MM-DD` in ASCII digits naming a day that exists; `None` stands
      for the `DateTimeParseException`. */
  function Parse(s: string): (r: Option<LocalDate>)
    ensures r.Some? ==> 0 <= r.value.year <= 9999
  {
    if |s| == 10 && s[4] == '-' && s[7] == '-'
       && AllDigits(s[..4]) && AllDigits(s[5..7]) && AllDigits(s[8..])
    then
      var d := Date(DigitsValue(s[..4]), DigitsValue(s[5..7]), DigitsValue(s[8..]));
      FourDigits(s[..4]);
      if ValidDate(d) then Some(d) else None
    else None
  }

  lemma TwoDigits(s: string)
    requires |s| == 2 && AllDigits(s)
    ensures DigitsValue(s) == 10 * DigitValue(s[0]) + DigitValue(s[1])
  {
    assert s[..1][..0] == [];
    assert DigitsValue(s[..1]) == DigitValue(s[0]);
  }

  lemma FourDigits(s: string)
    requires |s| == 4 && AllDigits(s)
    ensures DigitsValue(s) == 1000 * DigitValue(s[0]) + 100 * DigitValue(s[1]) + 10 * DigitValue(s[2]) + DigitValue(s[3])
    ensures DigitsValue(s) < 10000
  {
    TwoDigits(s[..2]);
    assert s[..3][..2] == s[..2];
    assert s[..4] == s;
  }

  lemma SplitFour(n: nat)
    requires n < 10000
    ensures 1000 * (n / 1000) + 100 * (n / 100 % 10) + 10 * (n / 10 % 10) + n % 10 == n
  {
    var a, b, c := n / 1000, n / 100, n / 10;
    assert n == 10 * c + n % 10;
    assert c == 10 * b + c % 10;
    assert b == 10 * a + b % 10;
    assert c % 10 == n / 10 % 10 && b % 10 == n / 100 % 10;
  }

  lemma JoinFour(a: nat, b: nat, c: nat, d: nat)
    requires a < 10 && b < 10 && c < 10 && d < 10
    ensures var v := 1000 * a + 100 * b + 10 * c + d;
      v / 1000 == a && v / 100 % 10 == b && v / 10 % 10 == c && v % 10 == d
  {
    var v := 1000 * a + 100 * b + 10 * c + d;
    assert v / 10 == 100 * a + 10 * b + c;
    assert v / 100 == 10 * a + b;
  }

  /** Four-digit rendering followed by reading gives the number back. */
  lemma Pad4Value(n: nat)
    requires n < 10000
    ensures DigitsValue(Pad4(n)) == n
  {
    FourDigits(Pad4(n));
    SplitFour(n);
  }

  /** Reading four digits followed by four-digit rendering gives the digits back. */
  lemma Pad4OfValue(s: string)
    requires |s| == 4 && AllDigits(s)
    ensures DigitsValue(s) < 10000 && Pad4(DigitsValue(s)) == s
  {
    FourDigits(s);
    JoinFour(DigitValue(s[0]), DigitValue(s[1]), DigitValue(s[2]), DigitValue(s[3]));
    assert DigitChar(DigitValue(s[0])) == s[0] && DigitChar(DigitValue(s[1])) == s[1];
    assert DigitChar(DigitValue(s[2])) == s[2] && DigitChar(DigitValue(s[3])) == s[3];
  }

  lemma Pad2Value(n: nat)
    requires n < 100
    ensures DigitsValue(Pad2(n)) == n
  {
    TwoDigits(Pad2(n));
  }

  lemma Pad2OfValue(s: string)
    requires |s| == 2 && AllDigits(s)
    ensures DigitsValue(s) < 100 && Pad2(DigitsValue(s)) == s
  {
    TwoDigits(s);
    var v := DigitsValue(s);
    assert v / 10 == DigitValue(s[0]) && v % 10 == DigitValue(s[1]);
    assert DigitChar(DigitValue(s[0])) == s[0] && DigitChar(DigitValue(s[1])) == s[1];
  }

  /** Every date of years 0 to 9999 that `LocalDate.toString` writes is read
      back by the ISO parser as the same date. */
  lemma ParseFormat(d: Date)
    requires ValidDate(d) && 0 <= d.year <= 9999
    ensures Parse(Format(d)) == Some(d)
  {
    var s := Format(d);
    Pad4Value(d.year);
    Pad2Value(d.month);
    Pad2Value(d.day);
    assert s[..4] == Pad4(d.year);
    assert s[5..7] == Pad2(d.month);
    assert s[8..] == Pad2(d.day);
  }

  /** The ISO parser accepts only the text `LocalDate.toString` writes for
      the date it returns: reading and re-writing a date of birth is exact. */
  lemma FormatParse(s: string)
    requires Parse(s).Some?
    ensures Format(Parse(s).value) == s
  {
    var d := Parse(s).value;
    Pad4OfValue(s[..4]);
    Pad2OfValue(s[5..7]);
    Pad2OfValue(s[8..]);
    assert s == s[..4] + "-" + s[5..7] + "-" + s[8..];
  }

  /** A written date holds only digits and the signs `-` and `+`. */
  lemma FormatChars(d: Date, cs: set<char>)
    requires ValidDate(d)
    requires forall c | c in cs :: !IsDigit(c) && c != '-' && c != '+'
    ensures NoneIn(Format(d), cs)
  {
    IntToStringChars(d.year, cs);
  }
}

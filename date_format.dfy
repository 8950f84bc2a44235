/**
  The date line of the letter header: a calendar date rendered with the
  `strftime` pattern `"%B %d, %Y"` in the C locale, for example
  `"March 07, 2025"`. Reading the clock is not part of this model; the date
  is an input.
 */
module DateFormat {
  import opened Wrappers
  import opened PyText

  datatype Date = Date(year: int, month: int, day: int)

  /** Gregorian leap years. */
  predicate IsLeapYear(year: int) {
    year % 4 == 0 && (year % 100 != 0 || year % 400 == 0)
  }

  function DaysInMonth(year: int, month: int): int
    requires 1 <= month <= 12
  {
    if month == 2 then (if IsLeapYear(year) then 29 else 28)
    else if month == 4 || month == 6 || month == 9 || month == 11 then 30
    else 31
  }

  /** The dates a Python `datetime` can hold: years 1 to 9999 and real calendar days. */
  predicate ValidDate(d: Date) {
    && 1 <= d.year <= 9999
    && 1 <= d.month <= 12
    && 1 <= d.day <= DaysInMonth(d.year, d.month)
  }

  /** `%B` in the C locale. */
  function MonthName(month: int): string
    requires 1 <= month <= 12
  {
    match month
    case 1 => "January"
    case 2 => "February"
    case 3 => "March"
    case 4 => "April"
    case 5 => "May"
    case 6 => "June"
    case 7 => "July"
    case 8 => "August"
    case 9 => "September"
    case 10 => "October"
    case 11 => "November"
    case _ => "December"
  }

  /** The month a full English month name stands for. */
  function MonthNumber(name: string): Option<int> {
    if name == "January" then Some(1)
    else if name == "February" then Some(2)
    else if name == "March" then Some(3)
    else if name == "April" then Some(4)
    else if name == "May" then Some(5)
    else if name == "June" then Some(6)
    else if name == "July" then Some(7)
    else if name == "August" then Some(8)
    else if name == "September" then Some(9)
    else if name == "October" then Some(10)
    else if name == "November" then Some(11)
    else if name == "December" then Some(12)
    else None
  }

  predicate IsDigit(c: char) {
    '0' <= c <= '9'
  }

  predicate AllDigits(s: string) {
    forall k :: 0 <= k < |s| ==> IsDigit(s[k])
  }

  function DigitChar(n: int): (c: char)
    requires 0 <= n < 10
    ensures IsDigit(c)
  {
    (n + '0' as int) as char
  }

  function DigitValue(c: char): int {
    c as int - '0' as int
  }

  /** The decimal numeral of `n`, without leading zeros. */
  function Decimal(n: nat): (r: string)
    ensures |r| >= 1 && AllDigits(r)
    ensures r[0] == '0' ==> n == 0
  {
    if n < 10 then [DigitChar(n)] else Decimal(n / 10) + [DigitChar(n % 10)]
  }

  /** The value of a numeral made of decimal digits. */
  function ParseDecimal(s: string): nat
    requires AllDigits(s)
  {
    if s == [] then 0 else 10 * ParseDecimal(s[..|s| - 1]) + DigitValue(s[|s| - 1])
  }

  /** `%d`: the day of the month as two digits, zero-padded. */
  function TwoDigits(n: int): (r: string)
    requires 0 <= n < 100
    ensures |r| == 2 && AllDigits(r)
  {
    [DigitChar(n / 10), DigitChar(n % 10)]
  }

  /** `d.strftime("%B %d, %Y")`. */
  function FormatDate(d: Date): string
    requires ValidDate(d)
  {
    MonthName(d.month) + " " + TwoDigits(d.day) + ", " + Decimal(d.year)
  }

  /** Reads a date back from the `"%B %d, %Y"` form; `None` when the text is not one. */
  function ParseDate(s: string): Option<Date> {
    match FindFrom(s, " ", 0)
    case None => None
    case Some(i) =>
      var month := MonthNumber(s[..i]);
      var rest := s[i + 1..];
      if month.None? || |rest| < 5 || !IsDigit(rest[0]) || !IsDigit(rest[1])
         || rest[2..4] != ", " || !AllDigits(rest[4..])
      then None
      else
        var d := Date(ParseDecimal(rest[4..]), month.value, 10 * DigitValue(rest[0]) + DigitValue(rest[1]));
        if ValidDate(d) then Some(d) else None
  }

  lemma {:induction false} ParseDecimalOfDecimal(n: nat)
    ensures ParseDecimal(Decimal(n)) == n
    decreases n
  {
    if n >= 10 {
      var r := Decimal(n);
      assert r[..|r| - 1] == Decimal(n / 10);
      ParseDecimalOfDecimal(n / 10);
    }
  }

  lemma MonthNameRoundTrip(month: int)
    requires 1 <= month <= 12
    ensures MonthNumber(MonthName(month)) == Some(month)
    ensures forall k :: 0 <= k < |MonthName(month)| ==> MonthName(month)[k] != ' '
  {
  }

  /** The date line determines the date: parsing it gives back exactly the date formatted. */
  lemma {:induction false} FormatDateRoundTrip(d: Date)
    requires ValidDate(d)
    ensures ParseDate(FormatDate(d)) == Some(d)
  {
    var name := MonthName(d.month);
    var s := FormatDate(d);
    MonthNameRoundTrip(d.month);
    assert s[|name|..|name| + 1] == " ";
    forall m | 0 <= m < |name| ensures !MatchAt(s, " ", m) {
      assert s[m..m + 1][0] == name[m];
    }
    FindFromIs(s, " ", 0, |name|);
    assert s[..|name|] == name;
    var rest := s[|name| + 1..];
    assert rest == TwoDigits(d.day) + ", " + Decimal(d.year);
    assert rest[4..] == Decimal(d.year);
    ParseDecimalOfDecimal(d.year);
  }

  /** Two dates with the same date line are the same date. */
  lemma FormatDateInjective(d1: Date, d2: Date)
    requires ValidDate(d1) && ValidDate(d2)
    requires FormatDate(d1) == FormatDate(d2)
    ensures d1 == d2
  {
    FormatDateRoundTrip(d1);
    FormatDateRoundTrip(d2);
  }
}

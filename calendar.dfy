/**
 * Proleptic Gregorian calendar dates as chrono's `NaiveDate` sees them:
 * validity, parsing with the pattern `%Y%m%d` and formatting with `%d-%b-%Y`.
 */
module Calendar {
  import opened Wrappers
  import opened Decimal

  datatype Date = Date(year: nat, month: nat, day: nat)

  predicate IsLeapYear(y: nat) {
    (y % 4 == 0 && y % 100 != 0) || y % 400 == 0
  }

  function DaysInMonth(y: nat, m: nat): (n: nat)
    requires 1 <= m <= 12
    ensures 28 <= n <= 31
    ensures n == 29 <==> m == 2 && IsLeapYear(y)
  {
    if m == 2 then (if IsLeapYear(y) then 29 else 28)
    else if m == 4 || m == 6 || m == 9 || m == 11 then 30
    else 31
  }

  /** The date exists in the calendar. */
  predicate ValidDate(d: Date) {
    1 <= d.month <= 12 && 1 <= d.day <= DaysInMonth(d.year, d.month)
  }

  /** chrono's `NaiveDate`: a date that exists in the proleptic Gregorian calendar. */
  type NaiveDate = d: Date | ValidDate(d) witness Date(1970, 1, 1)

  function Pow10(k: nat): (p: nat)
    ensures p >= 1
  {
    if k == 0 then 1 else 10 * Pow10(k - 1)
  }

  /** `n` written with exactly `width` digits, zero padded on the left. */
  function PadDigits(n: nat, width: nat): (s: string)
    requires n < Pow10(width)
    ensures |s| == width && AllDigits(s) && ValueOf(s) == n
  {
    if width == 0 then []
    else
      var s := PadDigits(n / 10, width - 1) + [DigitChar(n % 10)];
      assert s[..|s| - 1] == PadDigits(n / 10, width - 1);
      s
  }

  /** Number of leading ASCII digits of `s`, at most `max` (chrono's numeric scanner). */
  function LeadingDigits(s: string, max: nat): (n: nat)
    ensures n <= max && n <= |s| && AllDigits(s[..n])
    ensures n < max && n < |s| ==> !IsDigit(s[n])
  {
    if max == 0 || s == [] || !IsDigit(s[0]) then 0
    else
      var n := 1 + LeadingDigits(s[1..], max - 1);
      assert s[..n] == [s[0]] + s[1..][..n - 1];
      n
  }

  /**
   * `NaiveDate::parse_from_str(s, "%Y%m%d")`: the year takes one to four
   * digits, then the month and the day one to two digits each, every field
   * as many digits as are there up to its width; nothing may follow, and
   * the result must be a date that exists.
   */
  function ParseYmd(s: string): (r: Option<Date>)
    ensures r.Some? ==> ValidDate(r.value) && r.value.year <= 9999
  {
    var y := LeadingDigits(s, 4);
    var s1 := s[y..];
    var m := LeadingDigits(s1, 2);
    var s2 := s1[m..];
    var d := LeadingDigits(s2, 2);
    if y == 0 || m == 0 || d == 0 || d < |s2| then None
    else
      assert ValueOf(s[..y]) < 10000 by { ValueBound(s[..y]); }
      var date := Date(ValueOf(s[..y]), ValueOf(s1[..m]), ValueOf(s2[..d]));
      if ValidDate(date) then Some(date) else None
  }

  lemma {:induction false} ValueBound(s: string)
    requires AllDigits(s)
    ensures ValueOf(s) < Pow10(|s|)
  {
    if s != [] {
      ValueBound(s[..|s| - 1]);
    }
  }

  /** The eight-digit `YYYYMMDD` form used in file names. */
  function Compact(d: Date): (s: string)
    requires ValidDate(d) && d.year <= 9999
    ensures |s| == 8 && AllDigits(s)
  {
    PadDigits(d.year, 4) + PadDigits(d.month, 2) + PadDigits(d.day, 2)
  }

  /** Every existing date written as `YYYYMMDD` parses back to itself. */
  lemma ParseCompact(d: Date)
    requires ValidDate(d) && d.year <= 9999
    ensures ParseYmd(Compact(d)) == Some(d)
  {
    var ys, ms, ds := PadDigits(d.year, 4), PadDigits(d.month, 2), PadDigits(d.day, 2);
    var s := Compact(d);
    assert s[..4] == ys;
    assert s[4..] == ms + ds;
    assert (ms + ds)[..2] == ms;
    assert (ms + ds)[2..] == ds;
    assert ds[..2] == ds;
  }

  /**
   * What the parser accepts: only strings of seven or eight ASCII digits
   * (a one-digit day is read too), split as four year digits, two month
   * digits and the rest for the day.
   */
  lemma ParseYmdShape(s: string)
    requires ParseYmd(s).Some?
    ensures AllDigits(s) && 7 <= |s| <= 8
    ensures ParseYmd(s) == Some(Date(ValueOf(s[..4]), ValueOf(s[4..6]), ValueOf(s[6..])))
  {
    var y := LeadingDigits(s, 4);
    var s1 := s[y..];
    var m := LeadingDigits(s1, 2);
    var s2 := s1[m..];
    var d := LeadingDigits(s2, 2);
    assert y == 4;
    assert m == 2;
    assert s == s[..y] + s1[..m] + s2[..d];
    assert s[4..6] == s1[..m];
    assert s[6..] == s2[..d];
  }

  /** Conversely, seven or eight digits naming an existing date are accepted. */
  lemma ParseYmdDigits(s: string)
    requires AllDigits(s) && 7 <= |s| <= 8
    requires ValidDate(Date(ValueOf(s[..4]), ValueOf(s[4..6]), ValueOf(s[6..])))
    ensures ParseYmd(s) == Some(Date(ValueOf(s[..4]), ValueOf(s[4..6]), ValueOf(s[6..])))
  {
    var y := LeadingDigits(s, 4);
    var s1 := s[y..];
    var m := LeadingDigits(s1, 2);
    var s2 := s1[m..];
    var d := LeadingDigits(s2, 2);
    AllDigitsLeading(s, 4);
    assert y == 4;
    AllDigitsLeading(s1, 2);
    assert m == 2;
    AllDigitsLeading(s2, 2);
    assert d == |s2|;
    assert s1[..m] == s[4..6];
    assert s2[..d] == s[6..];
  }

  lemma {:induction false} AllDigitsLeading(s: string, max: nat)
    requires AllDigits(s)
    ensures LeadingDigits(s, max) == if |s| < max then |s| else max
  {
    if max > 0 && s != [] {
      AllDigitsLeading(s[1..], max - 1);
    }
  }

  /** A thirteenth month is refused. */
  lemma ParseRejectsMonth13()
    ensures ParseYmd("20241332") == None
  {
    var s := "20241332";
    assert s[4..] == "1332";
    assert "1332"[..2] == "13";
    assert "1332"[2..] == "32";
    assert ValueOf("13") == 13 by { assert "13"[..1] == "1"; }
  }

  /** `%b`: the English three-letter month abbreviation. */
  const MonthAbbrevs: seq<string> := ["Jan", "Feb", "Mar", "Apr", "May", "Jun", "Jul", "Aug", "Sep", "Oct", "Nov", "Dec"]

  function MonthAbbrev(m: nat): (s: string)
    requires 1 <= m <= 12
    ensures |s| == 3
  {
    MonthAbbrevs[m - 1]
  }

  /** `%Y`: four zero-padded digits for years up to 9999, a `+` sign and the digits beyond. */
  function YearText(y: nat): (s: string)
    ensures y <= 9999 ==> |s| == 4 && AllDigits(s)
  {
    if y <= 9999 then PadDigits(y, 4) else "+" + ToDecimal(y)
  }

  /** `date.format("%d-%b-%Y")`, for example `05-Sep-2025`. */
  function FormatDmy(d: Date): (s: string)
    requires ValidDate(d)
    ensures |s| >= 7 && (d.year <= 9999 ==> |s| == 11)
    ensures s[2] == '-' && s[6] == '-'
  {
    PadDigits(d.day, 2) + "-" + MonthAbbrev(d.month) + "-" + YearText(d.year)
  }

  lemma FormatExample()
    ensures FormatDmy(Date(2025, 9, 15)) == "15-Sep-2025"
  {
    var d := Date(2025, 9, 15);
    assert ValidDate(d);
    DayFifteen();
    YearTwentyTwentyFive();
    assert MonthAbbrev(9) == "Sep" by { assert MonthAbbrevs[8] == "Sep"; }
    assert FormatDmy(d) == "15" + "-" + "Sep" + "-" + "2025";
    SpellOut();
  }

  /** Proof step: the literal pieces of `FormatExample` joined, kept apart so the example stays cheap to check. */
  lemma SpellOut()
    ensures "15" + "-" + "Sep" + "-" + "2025" == "15-Sep-2025"
  {
  }

  lemma DayFifteen()
    ensures PadDigits(15, 2) == "15"
  {
    assert PadDigits(1, 1) == PadDigits(0, 0) + ['1'];
  }

  lemma YearTwentyTwentyFive()
    ensures YearText(2025) == "2025"
  {
    assert PadDigits(2, 1) == "2";
    assert PadDigits(20, 2) == "20";
    assert PadDigits(202, 3) == "202";
  }

  /** Distinct dates are formatted differently: the `%d-%b-%Y` text determines the date. */
  lemma {:induction false} FormatDmyInjective(a: Date, b: Date)
    requires ValidDate(a) && ValidDate(b)
    requires FormatDmy(a) == FormatDmy(b)
    ensures a == b
  {
    FormatDmyParts(a);
    FormatDmyParts(b);
    MonthAbbrevInjective(a.month, b.month);
    YearTextInjective(a.year, b.year);
  }

  /** Where the day, the month and the year sit in the formatted text. */
  lemma FormatDmyParts(d: Date)
    requires ValidDate(d)
    ensures FormatDmy(d)[..2] == PadDigits(d.day, 2)
    ensures FormatDmy(d)[3..6] == MonthAbbrev(d.month)
    ensures FormatDmy(d)[7..] == YearText(d.year)
  {
  }

  lemma MonthAbbrevInjective(a: nat, b: nat)
    requires 1 <= a <= 12 && 1 <= b <= 12
    requires MonthAbbrev(a) == MonthAbbrev(b)
    ensures a == b
  {
  }

  lemma YearTextInjective(a: nat, b: nat)
    requires YearText(a) == YearText(b)
    ensures a == b
  {
    assert YearText(a)[0] == '+' <==> a > 9999 by { assert a <= 9999 ==> IsDigit(YearText(a)[0]); }
    assert YearText(b)[0] == '+' <==> b > 9999 by { assert b <= 9999 ==> IsDigit(YearText(b)[0]); }
    if a > 9999 {
      assert ToDecimal(a) == YearText(a)[1..];
    }
  }

  /** The characters `%d-%b-%Y` can produce. */
  predicate DateChar(c: char) {
    IsDigit(c) || 'A' <= c <= 'Z' || 'a' <= c <= 'z' || c == '-' || c == '+'
  }

  lemma FormatDmyChars(d: Date)
    requires ValidDate(d)
    ensures forall k :: 0 <= k < |FormatDmy(d)| ==> DateChar(FormatDmy(d)[k])
  {
    var s := FormatDmy(d);
    FormatDmyParts(d);
    MonthChars(d.month);
    YearChars(d.year);
    forall k | 0 <= k < |s| ensures DateChar(s[k]) {
      if k < 2 {
        assert s[k] == s[..2][k];
      } else if 2 < k < 6 {
        assert s[k] == s[3..6][k - 3];
      } else if k > 6 {
        assert s[k] == s[7..][k - 7];
      }
    }
  }

  lemma MonthChars(m: nat)
    requires 1 <= m <= 12
    ensures forall k :: 0 <= k < 3 ==> DateChar(MonthAbbrev(m)[k])
  {
  }

  lemma YearChars(y: nat)
    ensures forall k :: 0 <= k < |YearText(y)| ==> DateChar(YearText(y)[k])
  {
    var year := YearText(y);
    if y > 9999 {
      var n := ToDecimal(y);
      assert forall k :: 1 <= k < |year| ==> year[k] == n[k - 1];
    }
  }
}

/**
 * Calendar dates as the generator uses them: Go's `time.Time` reduced to
 * day granularity, `time.Parse` with the layout "02-Jan-2006" and
 * `Time.Format` with the layout "2006/01/02".
 */
module Dates {
  import opened Text
  import opened Wrappers

  datatype Date = Date(year: nat, month: nat, day: nat)

  /** The zero `time.Time`: January 1 of year 1. */
  const ZeroDate := Date(1, 1, 1)

  predicate IsLeap(year: nat)
  {
    year % 4 == 0 && (year % 100 != 0 || year % 400 == 0)
  }

  function DaysIn(month: nat, year: nat): nat
    requires 1 <= month <= 12
  {
    if month == 2 then (if IsLeap(year) then 29 else 28)
    else if month == 4 || month == 6 || month == 9 || month == 11 then 30
    else 31
  }

  /** A date that exists in the calendar and whose year has four digits,
      the ones the layout "02-Jan-2006" can express. */
  predicate ValidDate(d: Date)
  {
    d.year <= 9999 && 1 <= d.month <= 12 && 1 <= d.day <= DaysIn(d.month, d.year)
  }

  // ---------------------------------------------------------------------
  // Decimal digits.
  // ---------------------------------------------------------------------

  predicate IsDigit(c: Byte)
  {
    '0' <= c <= '9'
  }

  predicate AllDigits(s: Bytes)
  {
    forall i :: 0 <= i < |s| ==> IsDigit(s[i])
  }

  function DigitChar(d: nat): (c: Byte)
    requires d < 10
    ensures IsDigit(c) && c as int - '0' as int == d
  {
    ('0' as int + d) as char
  }

  /** The number a string of decimal digits denotes. */
  function DecimalValue(s: Bytes): nat
    requires AllDigits(s)
  {
    if s == [] then 0
    else DecimalValue(s[..|s| - 1]) * 10 + (s[|s| - 1] as int - '0' as int)
  }

  /** The shortest decimal representation of `n`. */
  function Digits(n: nat): (r: Bytes)
    ensures |r| >= 1 && AllDigits(r)
    ensures DecimalValue(r) == n
    decreases n
  {
    if n < 10 then [DigitChar(n)]
    else
      var r := Digits(n / 10) + [DigitChar(n % 10)];
      assert r[..|r| - 1] == Digits(n / 10);
      r
  }

  function Zeros(k: nat): (r: Bytes)
    ensures |r| == k && AllDigits(r)
  {
    seq(k, i => '0')
  }

  function Pow10(k: nat): nat
  {
    if k == 0 then 1 else 10 * Pow10(k - 1)
  }

  /** `Digits(n)` has at most `k` digits exactly when `n < 10^k`. */
  lemma {:induction false} DigitsLength(n: nat, k: nat)
    requires k >= 1
    ensures |Digits(n)| <= k <==> n < Pow10(k)
    decreases n
  {
    if n >= 10 && k > 1 {
      DigitsLength(n / 10, k - 1);
    } else if n >= 10 {
      assert Pow10(1) == 10;
    } else {
      PowAtLeastTen(k);
    }
  }

  lemma {:induction false} PowAtLeastTen(k: nat)
    requires k >= 1
    ensures Pow10(k) >= 10
  {
    if k > 1 {
      PowAtLeastTen(k - 1);
    }
  }

  /** A string of `k` digits denotes a number below 10^k. */
  lemma {:induction false} ValueBound(s: Bytes)
    requires AllDigits(s)
    ensures DecimalValue(s) < Pow10(|s|)
  {
    if s != [] {
      ValueBound(s[..|s| - 1]);
    }
  }

  /** Leading zeros do not change the value of a digit string. */
  lemma {:induction false} ZerosValue(k: nat, s: Bytes)
    requires AllDigits(s)
    ensures DecimalValue(Zeros(k) + s) == DecimalValue(s)
    decreases |s|, k
  {
    var t := Zeros(k) + s;
    if s == [] {
      if k > 0 {
        assert t[..|t| - 1] == Zeros(k - 1) + [];
        ZerosValue(k - 1, []);
      }
    } else {
      assert t[..|t| - 1] == Zeros(k) + s[..|s| - 1];
      ZerosValue(k, s[..|s| - 1]);
    }
  }

  /** `n` in decimal, left-padded with zeros to at least `width` digits, as
      Go's time formatting prints the fields "2006", "01" and "02". */
  function Pad(n: nat, width: nat): (r: Bytes)
    ensures AllDigits(r) && |r| >= width
    ensures DecimalValue(r) == n
    ensures width >= 1 && n < Pow10(width) ==> |r| == width
  {
    var d := Digits(n);
    var k := if |d| < width then width - |d| else 0;
    ZerosValue(k, d);
    if width == 0 then Zeros(k) + d
    else DigitsLength(n, width); Zeros(k) + d
  }

  // ---------------------------------------------------------------------
  // time.Parse("02-Jan-2006", s).
  // ---------------------------------------------------------------------

  /** Go's short month names, January first. */
  const ShortMonthNames: seq<Bytes> :=
    ["Jan", "Feb", "Mar", "Apr", "May", "Jun", "Jul", "Aug", "Sep", "Oct", "Nov", "Dec"]

  /** The number (1 to 12) of the first month from the `k`-th on whose
      short name equals `s` up to ASCII letter case. */
  function MonthFrom(s: Bytes, k: nat): (r: Option<nat>)
    requires k <= 12
    ensures r.Some? ==> k < r.value <= 12 && Lower(s) == Lower(ShortMonthNames[r.value - 1])
    ensures r.Some? ==> forall j :: k <= j < r.value - 1 ==> Lower(s) != Lower(ShortMonthNames[j])
    ensures r.None? ==> forall j :: k <= j < 12 ==> Lower(s) != Lower(ShortMonthNames[j])
    decreases 12 - k
  {
    if k == 12 then None
    else if Lower(s) == Lower(ShortMonthNames[k]) then Some(k + 1)
    else MonthFrom(s, k + 1)
  }

  /** The month a three-letter name stands for, in any letter case. */
  function MonthOf(s: Bytes): Option<nat>
  {
    MonthFrom(s, 0)
  }

  /** The date `s` spells in the layout "02-Jan-2006", or None when Go's
      `time.Parse` reports an error: the day must be exactly two digits,
      the month one of the short month names in any letter case, the year
      exactly four digits, the two dashes literal, nothing may follow, and
      the day must exist in that month of that year. */
  function ParseDate(s: Bytes): (r: Option<Date>)
    ensures r.Some? ==> ValidDate(r.value)
  {
    if |s| != 11 || !AllDigits(s[..2]) || s[2] != '-' || s[6] != '-' || !AllDigits(s[7..]) then None
    else
      match MonthOf(s[3..6])
      case None => None
      case Some(month) =>
        var d := Date(DecimalValue(s[7..]), month, DecimalValue(s[..2]));
        assert d.year <= 9999 by { ValueBound(s[7..]); }
        if 1 <= d.day <= DaysIn(month, d.year) then Some(d) else None
  }

  // ---------------------------------------------------------------------
  // Time.Format: the layouts "02-Jan-2006" and "2006/01/02".
  // ---------------------------------------------------------------------

  /** `d` in the layout "02-Jan-2006". */
  function DayMonthYear(d: Date): Bytes
    requires 1 <= d.month <= 12
  {
    Pad(d.day, 2) + "-" + ShortMonthNames[d.month - 1] + "-" + Pad(d.year, 4)
  }

  /** `d` in the layout "2006/01/02": three fields between slashes, all
      digits, spelling the year in at least four digits and the month and
      the day in at least two. */
  function FormatDate(d: Date): (r: Bytes)
    ensures var f := Split(r, '/');
      |f| == 3 && AllDigits(f[0]) && AllDigits(f[1]) && AllDigits(f[2])
      && DecimalValue(f[0]) == d.year && DecimalValue(f[1]) == d.month && DecimalValue(f[2]) == d.day
      && |f[0]| >= 4 && |f[1]| >= 2 && |f[2]| >= 2
  {
    SlashFields(Pad(d.year, 4), Pad(d.month, 2), Pad(d.day, 2));
    Pad(d.year, 4) + "/" + Pad(d.month, 2) + "/" + Pad(d.day, 2)
  }

  /** Three fields of digits joined with slashes split back into them. */
  lemma SlashFields(a: Bytes, b: Bytes, c: Bytes)
    requires AllDigits(a) && AllDigits(b) && AllDigits(c)
    ensures Split(a + "/" + b + "/" + c, '/') == [a, b, c]
    ensures JoinWith([a, b, c], '/') == a + "/" + b + "/" + c
  {
    var parts := [a, b, c];
    forall k | 0 <= k < 3 ensures '/' !in parts[k] {
      assert AllDigits(parts[k]);
    }
    assert parts[1..] == [b] + [c];
    JoinWithCons(b, [c], '/');
    JoinWithCons(a, parts[1..], '/');
    assert [a] + parts[1..] == parts;
    assert JoinWith(parts, '/') == a + ['/'] + (b + ['/'] + c);
    assert a + "/" + b + "/" + c == a + ['/'] + (b + ['/'] + c);
    SplitJoin(parts, '/');
  }

  // ---------------------------------------------------------------------
  // Properties.
  // ---------------------------------------------------------------------

  /** The short month names in lower case; they are pairwise different. */
  const LowerMonthNames: seq<Bytes> :=
    ["jan", "feb", "mar", "apr", "may", "jun", "jul", "aug", "sep", "oct", "nov", "dec"]

  lemma LowerShortMonthNames()
    ensures forall k :: 0 <= k < 12 ==> Lower(ShortMonthNames[k]) == LowerMonthNames[k]
  {
    forall k | 0 <= k < 12
      ensures Lower(ShortMonthNames[k]) == LowerMonthNames[k]
    {
      var name := ShortMonthNames[k];
      assert |name| == 3 && 'A' <= name[0] <= 'Z' && 'a' <= name[1] <= 'z' && 'a' <= name[2] <= 'z';
    }
  }

  lemma LowerMonthNamesDistinct()
    ensures forall i, j :: 0 <= i < j < 12 ==> LowerMonthNames[i] != LowerMonthNames[j]
  {
    forall i, j | 0 <= i < j < 12
      ensures LowerMonthNames[i] != LowerMonthNames[j]
    {
      var a, b := LowerMonthNames[i], LowerMonthNames[j];
      assert a[0] != b[0] || a[1] != b[1] || a[2] != b[2];
    }
  }

  /** Every short month name, in any letter case, is recognised as its own
      month and not as an earlier one. */
  lemma MonthOfName(month: nat, s: Bytes)
    requires 1 <= month <= 12
    requires Lower(s) == Lower(ShortMonthNames[month - 1])
    ensures MonthOf(s) == Some(month)
  {
    LowerShortMonthNames();
    LowerMonthNamesDistinct();
    var r := MonthOf(s);
    assert r.Some?;
    assert LowerMonthNames[r.value - 1] == LowerMonthNames[month - 1];
  }

  /** Where the fields of the layout "02-Jan-2006" sit. */
  lemma DayMonthYearSlices(dd: Bytes, mon: Bytes, yyyy: Bytes)
    requires |dd| == 2 && |mon| == 3 && |yyyy| == 4
    ensures var s := dd + "-" + mon + "-" + yyyy;
      |s| == 11 && s[..2] == dd && s[2] == '-' && s[3..6] == mon && s[6] == '-' && s[7..] == yyyy
  {
  }

  /** A day of two digits, a month name and a year of four digits that
      make a date in the calendar parse to that date. */
  lemma ParseFields(dd: Bytes, mon: Bytes, yyyy: Bytes, month: nat)
    requires |dd| == 2 && AllDigits(dd) && |mon| == 3 && |yyyy| == 4 && AllDigits(yyyy)
    requires MonthOf(mon) == Some(month) && 1 <= month <= 12
    requires 1 <= DecimalValue(dd) <= DaysIn(month, DecimalValue(yyyy))
    ensures ParseDate(dd + "-" + mon + "-" + yyyy) == Some(Date(DecimalValue(yyyy), month, DecimalValue(dd)))
  {
    DayMonthYearSlices(dd, mon, yyyy);
  }

  /** Parsing what the layout "02-Jan-2006" prints gives the date back. */
  lemma ParseDayMonthYear(d: Date)
    requires ValidDate(d)
    ensures ParseDate(DayMonthYear(d)) == Some(d)
  {
    assert Pow10(2) == 100 && Pow10(4) == 10000;
    var name := ShortMonthNames[d.month - 1];
    assert |name| == 3;
    MonthOfName(d.month, name);
    ParseFields(Pad(d.day, 2), name, Pad(d.year, 4), d.month);
  }

  /** The date layout "2006/01/02" loses nothing: different dates print
      differently. */
  lemma FormatDateInjective(d1: Date, d2: Date)
    requires FormatDate(d1) == FormatDate(d2)
    ensures d1 == d2
  {
    FormatDateFields(d1);
    FormatDateFields(d2);
  }

  /** The fields of the layout "2006/01/02" are the slash-separated pieces. */
  lemma FormatDateFields(d: Date)
    ensures Split(FormatDate(d), '/') == [Pad(d.year, 4), Pad(d.month, 2), Pad(d.day, 2)]
    ensures JoinWith([Pad(d.year, 4), Pad(d.month, 2), Pad(d.day, 2)], '/') == FormatDate(d)
  {
    SlashFields(Pad(d.year, 4), Pad(d.month, 2), Pad(d.day, 2));
  }

  /** The zero date, which a failed parse leaves behind, prints as 0001/01/01. */
  lemma FormatZeroDate()
    ensures FormatDate(ZeroDate) == "0001/01/01"
  {
    assert Digits(1) == "1";
    assert Zeros(3) == "000" && Zeros(1) == "0";
  }

  /** The padded fields of 5 March 2024. */
  lemma ExamplePads()
    ensures Pad(2024, 4) == "2024" && Pad(3, 2) == "03" && Pad(5, 2) == "05"
  {
    ExampleYear();
    assert Digits(3) == "3" && Digits(5) == "5";
    assert Zeros(1) == "0";
  }

  lemma ExampleYear()
    ensures Pad(2024, 4) == "2024"
  {
    assert Digits(2) == "2" && Digits(20) == "20" && Digits(202) == "202";
    assert Digits(2024) == "2024";
    assert Zeros(0) == [];
  }

  /** 5 March 2024 prints as "2024/03/05" in the layout "2006/01/02". */
  lemma FormatExampleDate()
    ensures FormatDate(Date(2024, 3, 5)) == "2024/03/05"
  {
    ExamplePads();
  }

  /** 5 March 2024 prints as "05-Mar-2024" in the layout "02-Jan-2006". */
  lemma ExampleDayMonthYear()
    ensures DayMonthYear(Date(2024, 3, 5)) == "05-Mar-2024"
  {
    ExamplePads();
  }

  /** "05-Mar-2024" is 5 March 2024. */
  lemma ParseExampleDate()
    ensures ParseDate("05-Mar-2024") == Some(Date(2024, 3, 5))
  {
    ExampleDayMonthYear();
    ParseDayMonthYear(Date(2024, 3, 5));
  }
}

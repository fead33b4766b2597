/**
 * `parse_dates`: splits an already decoded timestamp into the date string
 * and the year, month, day and hour columns. Decoding the timestamp text
 * (`pd.to_datetime`) is not part of this module; the caller supplies its
 * result.
 */
module Dates {
  import opened PyStrings

  /** The calendar fields `pd.to_datetime(timestamp)` yields. */
  datatype Stamp = Stamp(year: nat, month: nat, day: nat, hour: nat)

  /** A decoded timestamp always has a real month, day and hour. */
  type Timestamp = s: Stamp | 1 <= s.month <= 12 && 1 <= s.day <= 31 && s.hour < 24
    witness Stamp(2021, 2, 9, 14)

  /** The five values `parse_dates` returns. */
  datatype DateParts = DateParts(date: string, year: nat, month: string, day: nat, hour: nat)

  /**
   * The month column: `"0"` in front of a month below 10, so every month
   * is written with exactly two digits and reads back as itself.
   */
  function MonthString(month: nat): (r: string)
    requires 1 <= month <= 12
    ensures |r| == 2 && All(r, IsDigit)
    ensures DecimalValue(r) == month
    ensures r[0] == '0' <==> month < 10
  {
    DecimalRoundTrip(month);
    if month < 10 then
      var r := "0" + Decimal(month);
      assert r[..1] == "0";
      r
    else Decimal(month)
  }

  /**
   * `parse_dates`. The year, day and hour pass through unchanged, and the
   * date string is year, month and day joined by "-", with the month
   * padded and the day not.
   */
  function ParseDates(t: Timestamp): (r: DateParts)
    ensures r.year == t.year && r.day == t.day && r.hour == t.hour
    ensures r.month == MonthString(t.month)
  {
    var month := MonthString(t.month);
    DateParts(Decimal(t.year) + "-" + month + "-" + Decimal(t.day), t.year, month, t.day, t.hour)
  }

  /**
   * The date string splits on "-" into exactly three digit fields that
   * read back as the year, the month and the day; the day field is the
   * plain decimal of the day, without padding.
   */
  lemma {:induction false} DateRoundTrip(t: Timestamp)
    ensures var fields := SplitOn(ParseDates(t).date, '-');
            && |fields| == 3
            && fields[0] == Decimal(t.year) && fields[1] == MonthString(t.month) && fields[2] == Decimal(t.day)
            && All(fields[0], IsDigit) && All(fields[1], IsDigit) && All(fields[2], IsDigit)
            && DecimalValue(fields[0]) == t.year
            && DecimalValue(fields[1]) == t.month
            && DecimalValue(fields[2]) == t.day
  {
    var y, m, d := Decimal(t.year), MonthString(t.month), Decimal(t.day);
    assert ParseDates(t).date == Join(['-'], [y, m, d]) by {
      assert Join(['-'], [y, m, d]) == y + ['-'] + Join(['-'], [m, d]);
      assert Join(['-'], [m, d]) == m + ['-'] + d;
    }
    DigitsHaveNoDash(y);
    DigitsHaveNoDash(m);
    DigitsHaveNoDash(d);
    JoinThenSplitOn([y, m, d], '-');
    DecimalRoundTrip(t.year);
    DecimalRoundTrip(t.day);
  }

  lemma DigitsHaveNoDash(s: string)
    requires All(s, IsDigit)
    ensures '-' !in s
  {
  }

  /** The month is padded and the day is not: 9 February 2021 is "2021-02-9". */
  lemma UnpaddedDay()
    ensures ParseDates(Stamp(2021, 2, 9, 14)) == DateParts("2021-02-9", 2021, "02", 9, 14)
  {
    assert Decimal(2021) == "2021" by {
      assert Decimal(2) == "2";
      assert Decimal(20) == "20";
      assert Decimal(202) == "202";
    }
    assert MonthString(2) == "02";
  }
}

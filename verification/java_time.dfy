/** The `java.time` parsing the filter compiler uses: `LocalDate.parse`
    with the pattern `yyyy-MM-dd`, `LocalDateTime.parse` with
    `yyyy-MM-dd HH:mm:ss`, and `atZone`. Years are exactly four ASCII
    digits. As in the formatter's default SMART resolution, a day of
    month from 1 to 31 is accepted and a day past the end of the month is
    moved back to the month's last day; a year-of-era of 0 is rejected. */
module JavaTime {
  import opened Results
  import opened JavaNumbers

  datatype LocalDate = LocalDate(year: int, month: int, day: int)

  datatype LocalDateTime = LocalDateTime(date: LocalDate, hour: int, minute: int, second: int)

  /** A local date-time tagged with the zone it was placed in. */
  datatype ZonedDateTime = ZonedDateTime(local: LocalDateTime, zone: string)

  predicate IsLeapYear(y: int) {
    y % 4 == 0 && (y % 100 != 0 || y % 400 == 0)
  }

  function DaysInMonth(y: int, m: int): int
    requires 1 <= m <= 12
  {
    if m == 2 then (if IsLeapYear(y) then 29 else 28)
    else if m == 4 || m == 6 || m == 9 || m == 11 then 30
    else 31
  }

  /** A calendar date with a four-digit year. */
  predicate ValidDate(d: LocalDate) {
    1 <= d.year <= 9999 && 1 <= d.month <= 12 && 1 <= d.day <= DaysInMonth(d.year, d.month)
  }

  function Min(a: int, b: int): int {
    if a <= b then a else b
  }

  /** The shape `dddd-dd-dd`. */
  predicate DateShaped(s: string) {
    |s| == 10 && s[4] == '-' && s[7] == '-'
    && AllDigits(s[..4]) && AllDigits(s[5..7]) && AllDigits(s[8..])
  }

  /** `LocalDate.parse(s, DateTimeFormatter.ofPattern("yyyy-MM-dd"))`;
      a failure carries the rejected text, as `DateTimeParseException`
      does. */
  function ParseDate(s: string): (r: Result<LocalDate, string>)
    ensures r.Ok? ==> ValidDate(r.value)
    ensures r.Err? ==> r.error == s
  {
    if DateShaped(s) then
      var y, m, d := DecimalValue(s[..4]), DecimalValue(s[5..7]), DecimalValue(s[8..]);
      if 1 <= y && 1 <= m <= 12 && 1 <= d <= 31 then
        DecimalValueBound(s[..4]);
        assert Pow10(4) == 10000;
        Ok(LocalDate(y, m, Min(d, DaysInMonth(y, m))))
      else Err(s)
    else Err(s)
  }

  /** The shape `dddd-dd-dd dd:dd:dd`. */
  predicate DateTimeShaped(s: string) {
    |s| == 19 && s[10] == ' ' && s[13] == ':' && s[16] == ':'
    && AllDigits(s[11..13]) && AllDigits(s[14..16]) && AllDigits(s[17..])
  }

  /** `LocalDateTime.parse(s, DateTimeFormatter.ofPattern("yyyy-MM-dd HH:mm:ss"))` */
  function ParseDateTime(s: string): (r: Result<LocalDateTime, string>)
    ensures r.Ok? ==> ValidDate(r.value.date)
    ensures r.Err? ==> r.error == s
  {
    if DateTimeShaped(s) then
      match ParseDate(s[..10])
      case Err(_) => Err(s)
      case Ok(d) =>
        var h, mi, se := DecimalValue(s[11..13]), DecimalValue(s[14..16]), DecimalValue(s[17..]);
        if h <= 23 && mi <= 59 && se <= 59 then Ok(LocalDateTime(d, h, mi, se)) else Err(s)
    else Err(s)
  }

  /** The first instant of a day. */
  function AtStartOfDay(d: LocalDate): LocalDateTime {
    LocalDateTime(d, 0, 0, 0)
  }

  /** `LocalDateTime.atZone(zone)` */
  function AtZone(t: LocalDateTime, zone: string): ZonedDateTime {
    ZonedDateTime(t, zone)
  }

  const MIDNIGHT := " 00:00:00"

  /** Where the separators and the zero fields of the midnight suffix
      sit. */
  lemma MidnightLayout()
    ensures |MIDNIGHT| == 9
    ensures MIDNIGHT[0] == ' ' && MIDNIGHT[3] == ':' && MIDNIGHT[6] == ':'
    ensures MIDNIGHT[1..3] == "00" && MIDNIGHT[4..6] == "00" && MIDNIGHT[7..] == "00"
    ensures DecimalValue("00") == 0
  {
    assert MIDNIGHT[1..3] == [MIDNIGHT[1], MIDNIGHT[2]];
    assert MIDNIGHT[4..6] == [MIDNIGHT[4], MIDNIGHT[5]];
    assert MIDNIGHT[7..] == [MIDNIGHT[7], MIDNIGHT[8]];
    assert "00"[..1] == "0";
    assert "0"[..0] == "";
  }

  /** Appending a midnight time and parsing with the date-time pattern
      succeeds exactly when the text alone parses as a date, and then
      yields the start of that day. */
  lemma MidnightSuffix(s: string)
    ensures ParseDateTime(s + MIDNIGHT)
         == match ParseDate(s)
            case Ok(d) => Ok(AtStartOfDay(d))
            case Err(_) => Err(s + MIDNIGHT)
  {
    var t := s + MIDNIGHT;
    if |s| == 10 {
      MidnightLayout();
      assert t[..10] == s;
      assert t[10..] == MIDNIGHT;
      assert t[11..13] == MIDNIGHT[1..3] && t[14..16] == MIDNIGHT[4..6] && t[17..] == MIDNIGHT[7..];
      assert t[10] == MIDNIGHT[0] && t[13] == MIDNIGHT[3] && t[16] == MIDNIGHT[6];
      assert DateTimeShaped(t);
      match ParseDate(s)
      case Ok(d) =>
        assert ParseDateTime(t) == Ok(LocalDateTime(d, 0, 0, 0));
      case Err(_) =>
    } else {
      assert |t| != 19;
    }
  }

  // ---------------------------------------------------------------------
  // Formatting: the inverse used to state what parsing accepts

  /** `n` written with exactly `width` digits, zero-padded on the left. */
  function FixedDigits(n: nat, width: nat): string
    decreases width
  {
    if width == 0 then "" else FixedDigits(n / 10, width - 1) + [DigitChar(n % 10)]
  }

  lemma {:induction false} FixedDigitsValue(n: nat, width: nat)
    requires n < Pow10(width)
    ensures |FixedDigits(n, width)| == width && AllDigits(FixedDigits(n, width))
    ensures DecimalValue(FixedDigits(n, width)) == n
    decreases width
  {
    if width > 0 {
      FixedDigitsValue(n / 10, width - 1);
      var t := FixedDigits(n, width);
      assert t[..|t| - 1] == FixedDigits(n / 10, width - 1);
    }
  }

  /** `d` in the `yyyy-MM-dd` pattern. */
  function FormatDate(d: LocalDate): string
    requires ValidDate(d)
  {
    FixedDigits(d.year, 4) + "-" + FixedDigits(d.month, 2) + "-" + FixedDigits(d.day, 2)
  }

  /** Round trip: every calendar date with a four-digit year parses back
      from its `yyyy-MM-dd` text. */
  lemma ParseFormatDate(d: LocalDate)
    requires ValidDate(d)
    ensures ParseDate(FormatDate(d)) == Ok(d)
  {
    assert Pow10(2) == 100 && Pow10(4) == 10000;
    FixedDigitsValue(d.year, 4);
    FixedDigitsValue(d.month, 2);
    FixedDigitsValue(d.day, 2);
    var s := FormatDate(d);
    assert s[..4] == FixedDigits(d.year, 4);
    assert s[5..7] == FixedDigits(d.month, 2);
    assert s[8..] == FixedDigits(d.day, 2);
  }

  /** A `yyyy-MM-dd` text is never a number literal: its fifth character
      is a dash. */
  lemma DateTextIsNotNumber(s: string)
    requires DateShaped(s)
    ensures !IsCreatable(s)
    ensures '-' in s
  {
    assert s[4] == '-';
    assert IsDigit(s[0]) by { assert s[0] == s[..4][0]; }
    var body := Unsigned(s);
    assert body == s;
    forall i | 0 <= i < |s| ensures s[i] != '.' {
      if i < 4 {
        assert s[i] == s[..4][i];
      } else if 4 < i < 7 {
        assert s[i] == s[5..7][i - 5];
      } else if 7 < i {
        assert s[i] == s[8..][i - 8];
      }
    }
    assert !IsDigit(body[4]);
  }

  /** Formatted dates have the `yyyy-MM-dd` shape. */
  lemma FormatDateShaped(d: LocalDate)
    requires ValidDate(d)
    ensures DateShaped(FormatDate(d))
  {
    ParseFormatDate(d);
    var s := FormatDate(d);
    assert ParseDate(s).Ok?;
  }
}

/**
 * The server-side date parser `convertYYYYMMDDToTimestamp`: a "YYYYMMDD" or
 * "YYYY-MM-DD" string becomes a local calendar date, or the function throws.
 * The Firestore Timestamp it wraps the date in is represented by the date itself.
 */
module DateConversion {
  import opened Wrappers
  import opened Decimal
  import opened JsParseInt
  import opened Calendar

  /** The three exceptions the parser throws. */
  datatype DateError =
    | InvalidFormat      // the string without hyphens is not 8 characters long
    | InvalidComponents  // year, month or day is not a number
    | InvalidDate        // the fields do not name a real date

  /** Every '-' removed, every other character kept in order (`replace(/-/g, '')`). */
  function RemoveHyphens(s: string): (r: string)
    ensures |r| <= |s|
    ensures forall i :: 0 <= i < |r| ==> r[i] != '-'
    ensures (forall i :: 0 <= i < |s| ==> s[i] != '-') ==> r == s
  {
    if s == [] then []
    else (if s[0] == '-' then [] else [s[0]]) + RemoveHyphens(s[1..])
  }

  /** The three parsed fields as a date with a 0-based month, when all three parsed. */
  function CombineFields(year: Option<int>, month: Option<int>, day: Option<int>): (r: Option<CalendarDate>)
    ensures r.Some? <==> year.Some? && month.Some? && day.Some?
    ensures r.Some? ==> r.value == CalendarDate(year.value, month.value - 1, day.value)
  {
    if year.None? || month.None? || day.None? then None
    else Some(CalendarDate(year.value, month.value - 1, day.value))
  }

  /** Year, month and day read by parseInt from characters [0,4), [4,6) and [6,8); month made 0-based. */
  function ParseFields(n: string): Option<CalendarDate>
    requires |n| == 8
  {
    CombineFields(ParseInt(n[0..4]), ParseInt(n[4..6]), ParseInt(n[6..8]))
  }

  /** The round-trip check: a Date built from the fields reports the same fields back. */
  predicate RoundTrips(f: CalendarDate) {
    LocalDate(f.year, f.month0, f.day) == f
  }

  /** The round-trip check passes exactly for real dates whose year is outside 0..99. */
  lemma RoundTripsExactly(f: CalendarDate)
    ensures RoundTrips(f) <==> IsValidDate(f) && !(0 <= f.year <= 99)
  {
    LocalDateRoundTrip(f.year, f.month0, f.day);
  }

  /** `convertYYYYMMDDToTimestamp`: hyphens are removed first, then the rest is checked. */
  function ConvertYYYYMMDD(dateStr: string): (r: Result<CalendarDate, DateError>)
    ensures r == Err(InvalidFormat) <==> |RemoveHyphens(dateStr)| != 8
    ensures r.Ok? ==> IsValidDate(r.value) && !(0 <= r.value.year <= 99)
  {
    ConvertNormalised(RemoveHyphens(dateStr))
  }

  /** The checks on the string once its hyphens are gone: length, fields, round trip. */
  function ConvertNormalised(n: string): (r: Result<CalendarDate, DateError>)
    ensures r == Err(InvalidFormat) <==> |n| != 8
    ensures r.Ok? ==> IsValidDate(r.value) && !(0 <= r.value.year <= 99)
  {
    if |n| != 8 then Err(InvalidFormat)
    else match ParseFields(n)
      case None => Err(InvalidComponents)
      case Some(fields) =>
        LocalDateRoundTrip(fields.year, fields.month0, fields.day);
        if !RoundTrips(fields) then Err(InvalidDate) else Ok(fields)
  }

  /** The result has no hyphen left, so removing them again changes nothing. */
  lemma RemoveHyphensIdempotent(s: string)
    ensures RemoveHyphens(RemoveHyphens(s)) == RemoveHyphens(s)
  {
  }

  /** Removing hyphens works piece by piece: the kept characters stay in their order. */
  lemma {:induction false} RemoveHyphensAppend(a: string, b: string)
    ensures RemoveHyphens(a + b) == RemoveHyphens(a) + RemoveHyphens(b)
  {
    if a == [] {
      assert a + b == b;
    } else {
      assert (a + b)[1..] == a[1..] + b;
      RemoveHyphensAppend(a[1..], b);
    }
  }

  /** A single character is dropped exactly when it is a hyphen. */
  lemma RemoveHyphensChar(c: char)
    ensures RemoveHyphens([c]) == if c == '-' then [] else [c]
  {
    assert [c][1..] == [];
  }

  /** Hyphens play no part: "2024-02-15" and "20240215" give the same outcome. */
  lemma HyphensIgnored(s: string)
    ensures ConvertYYYYMMDD(RemoveHyphens(s)) == ConvertYYYYMMDD(s)
  {
    RemoveHyphensIdempotent(s);
  }

  /**
   * The parser accepts exactly the 8-character strings whose three fields are
   * numbers naming a real Gregorian date with a year outside 0..99, and then
   * returns those fields with the month made 0-based.
   */
  lemma ConvertAccepts(dateStr: string)
    ensures var n := RemoveHyphens(dateStr);
      ConvertYYYYMMDD(dateStr).Ok? <==>
        |n| == 8 && ParseFields(n).Some?
        && IsValidDate(ParseFields(n).value) && !(0 <= ParseFields(n).value.year <= 99)
    ensures var n := RemoveHyphens(dateStr);
      ConvertYYYYMMDD(dateStr).Ok? ==> |n| == 8 && ConvertYYYYMMDD(dateStr) == Ok(ParseFields(n).value)
  {
    var n := RemoveHyphens(dateStr);
    if |n| == 8 && ParseFields(n).Some? {
      var f := ParseFields(n).value;
      LocalDateRoundTrip(f.year, f.month0, f.day);
    }
  }

  /** Year, month (1-based) and day written as a zero-padded 8-digit "YYYYMMDD". */
  function CompactFields(year: nat, month: nat, day: nat): (s: string)
    requires year < 10000 && month < 100 && day < 100
    ensures |s| == 8 && AllDigits(s)
  {
    FixedDigits(year, 4) + FixedDigits(month, 2) + FixedDigits(day, 2)
  }

  /** An 8-digit string is read field by field, and only the round-trip check decides. */
  lemma CompactFieldsConvert(year: nat, month: nat, day: nat)
    requires year < 10000 && month < 100 && day < 100
    ensures var f := CalendarDate(year, month - 1, day);
      ConvertYYYYMMDD(CompactFields(year, month, day)) == if RoundTrips(f) then Ok(f) else Err(InvalidDate)
  {
    var s := CompactFields(year, month, day);
    assert RemoveHyphens(s) == s;
    assert ParseFields(s) == Some(CalendarDate(year, month - 1, day)) by {
      CompactFieldsRead(year, month, day);
    }
  }

  lemma CompactFieldsRead(year: nat, month: nat, day: nat)
    requires year < 10000 && month < 100 && day < 100
    ensures ParseFields(CompactFields(year, month, day)) == Some(CalendarDate(year, month - 1, day))
  {
    var y, m, d := FixedDigits(year, 4), FixedDigits(month, 2), FixedDigits(day, 2);
    var s := y + m + d;
    assert Pow10(2) == 100 && Pow10(4) == 10000;
    assert s[0..4] == y && s[4..6] == m && s[6..8] == d;
    FieldRead(s, 0, 4, year);
    FieldRead(s, 4, 6, month);
    FieldRead(s, 6, 8, day);
    ParseFieldsOf(s, year, month, day);
  }

  /** Three fields that parse give their date. */
  lemma ParseFieldsOf(n: string, year: int, month: int, day: int)
    requires |n| == 8
    requires ParseInt(n[0..4]) == Some(year) && ParseInt(n[4..6]) == Some(month) && ParseInt(n[6..8]) == Some(day)
    ensures ParseFields(n) == Some(CalendarDate(year, month - 1, day))
  {
    assert ParseFields(n) == CombineFields(Some(year), Some(month), Some(day));
  }

  /** A zero-padded field of a digit string is read back by parseInt. */
  lemma FieldRead(s: string, lo: nat, hi: nat, v: nat)
    requires lo < hi <= |s| && AllDigits(s) && v < Pow10(hi - lo)
    requires s[lo..hi] == FixedDigits(v, hi - lo)
    ensures ParseInt(s[lo..hi]) == Some(v)
  {
    FixedDigitsRoundTrip(v, hi - lo);
    ParseDigits(s[lo..hi]);
  }

  /** Every real date from year 100 to 9999 written as "YYYYMMDD" is read back unchanged. */
  lemma CompactDateRoundTrip(d: CalendarDate)
    requires IsValidDate(d) && 100 <= d.year <= 9999
    ensures ConvertYYYYMMDD(CompactFields(d.year, d.month0 + 1, d.day)) == Ok(d)
  {
    CompactFieldsConvert(d.year, d.month0 + 1, d.day);
    LocalDateRoundTrip(d.year, d.month0, d.day);
  }

  /** Every real date from year 100 to 9999 written as "YYYY-MM-DD" is read back unchanged. */
  lemma HyphenatedDateRoundTrip(d: CalendarDate)
    requires IsValidDate(d) && 100 <= d.year <= 9999
    ensures ConvertYYYYMMDD(FixedDigits(d.year, 4) + "-" + FixedDigits(d.month0 + 1, 2) + "-" + FixedDigits(d.day, 2)) == Ok(d)
  {
    var y, m, dd := FixedDigits(d.year, 4), FixedDigits(d.month0 + 1, 2), FixedDigits(d.day, 2);
    var compact := CompactFields(d.year, d.month0 + 1, d.day);
    assert RemoveHyphens(y + "-" + m + "-" + dd) == compact by {
      RemoveHyphensAppend(y + "-" + m + "-", dd);
      RemoveHyphensAppend(y + "-" + m, "-");
      RemoveHyphensAppend(y + "-", m);
      RemoveHyphensAppend(y, "-");
      RemoveHyphensChar('-');
      assert RemoveHyphens(y) == y && RemoveHyphens(m) == m && RemoveHyphens(dd) == dd;
    }
    assert RemoveHyphens(compact) == compact;
    CompactDateRoundTrip(d);
  }

  /** 29 February is accepted in a leap year and refused in any other. */
  lemma LeapDay(year: nat)
    requires 100 <= year <= 9999
    ensures ConvertYYYYMMDD(CompactFields(year, 2, 29))
      == if IsLeapYear(year) then Ok(CalendarDate(year, 1, 29)) else Err(InvalidDate)
  {
    CompactFieldsConvert(year, 2, 29);
    LocalDateRoundTrip(year, 1, 29);
  }

  /** Month 00 and months 13 to 99 never exist. */
  lemma MonthOutOfRange(year: nat, month: nat, day: nat)
    requires year < 10000 && month < 100 && day < 100
    requires month == 0 || month > 12
    ensures ConvertYYYYMMDD(CompactFields(year, month, day)) == Err(InvalidDate)
  {
    assert !RoundTrips(CalendarDate(year, month - 1, day)) by {
      assert !IsValidDate(CalendarDate(year, month - 1, day)) || 0 <= year <= 99;
      LocalDateRoundTrip(year, month - 1, day);
    }
    CompactFieldsConvert(year, month, day);
  }

  /** Day 00, and a day past the end of its month, never exist. */
  lemma DayOutOfRange(year: nat, month: nat, day: nat)
    requires year < 10000 && 1 <= month <= 12 && day < 100
    requires day == 0 || day > DaysInMonth(year, month - 1)
    ensures ConvertYYYYMMDD(CompactFields(year, month, day)) == Err(InvalidDate)
  {
    assert !RoundTrips(CalendarDate(year, month - 1, day)) by {
      assert !IsValidDate(CalendarDate(year, month - 1, day)) || 0 <= year <= 99;
      LocalDateRoundTrip(year, month - 1, day);
    }
    CompactFieldsConvert(year, month, day);
  }

  /** "0000" to "0099" are refused as years, whatever the month and day. */
  lemma TwoDigitYearRejected(year: nat, month: nat, day: nat)
    requires year <= 99 && month < 100 && day < 100
    ensures ConvertYYYYMMDD(CompactFields(year, month, day)) == Err(InvalidDate)
  {
    assert !RoundTrips(CalendarDate(year, month - 1, day)) by {
      assert !IsValidDate(CalendarDate(year, month - 1, day)) || 0 <= year <= 99;
      LocalDateRoundTrip(year, month - 1, day);
    }
    CompactFieldsConvert(year, month, day);
  }

  /**
   * parseInt accepts a sign in a field, so the length check and the round trip
   * let "2024+2+5" through as 5 February 2024: a one-digit month and day
   * written with a '+' in front are read like their padded forms.
   */
  lemma SignedFieldsAccepted(d: CalendarDate)
    requires IsValidDate(d) && 100 <= d.year <= 9999 && d.month0 < 9 && d.day < 10
    ensures ConvertYYYYMMDD(FixedDigits(d.year, 4) + "+" + FixedDigits(d.month0 + 1, 1) + "+" + FixedDigits(d.day, 1)) == Ok(d)
  {
    var y, m, dd := FixedDigits(d.year, 4), FixedDigits(d.month0 + 1, 1), FixedDigits(d.day, 1);
    var n := y + "+" + m + "+" + dd;
    assert RemoveHyphens(n) == n by {
      assert forall i :: 0 <= i < |n| ==> n[i] != '-' by {
        assert forall i :: 0 <= i < 4 ==> n[i] == y[i];
      }
    }
    assert n[0..4] == y && n[4..6] == "+" + m && n[6..8] == "+" + dd;
    assert Pow10(1) == 10 && Pow10(4) == 10000;
    FixedDigitsRoundTrip(d.year, 4);
    FixedDigitsRoundTrip(d.month0 + 1, 1);
    FixedDigitsRoundTrip(d.day, 1);
    ParseDigits(y);
    ParseIntPlusSign(m);
    ParseIntPlusSign(dd);
    ParseFieldsOf(n, d.year, d.month0 + 1, d.day);
    LocalDateRoundTrip(d.year, d.month0, d.day);
  }

  /** A month field starting with a Latin letter is not a number: "2024ab15" throws. */
  lemma LetterInMonthRejected(dateStr: string)
    requires var n := RemoveHyphens(dateStr); |n| == 8 && ('a' <= n[4] <= 'z' || 'A' <= n[4] <= 'Z')
    ensures ConvertYYYYMMDD(dateStr) == Err(InvalidComponents)
  {
    var t := RemoveHyphens(dateStr)[4..6];
    assert !IsStrWhiteSpace(t[0]);
    assert TrimStart(t) == t;
    assert DigitPrefix(t) == [];
    assert ParseInt(t) == None;
  }
}

/**
 * The two date formatters of the client:
 *  - `formatDateYYYYMMDD` on the onboarding card, which slices a date string
 *    at fixed positions with JavaScript's `substring` and never looks at what
 *    the characters are;
 *  - `formatDate`, which renders a `Date` from its local calendar fields in
 *    decimal, month one-based and nothing zero-padded.
 */
module DateFormatting {
  import opened Wrappers
  import opened Decimal
  import opened JsParseInt
  import opened Calendar
  import opened Text
  import DateConversion

  // ---------------------------------------------------------------------------
  // String.prototype.substring

  /** An index argument of `substring`, clamped into [0, len]. */
  function Clamp(i: int, len: nat): (c: nat)
    ensures c <= len
    ensures 0 <= i <= len ==> c == i
    ensures i < 0 ==> c == 0
    ensures i > len ==> c == len
  {
    if i < 0 then 0 else if i > len then len else i
  }

  /**
   * `s.substring(start, end)`: both indices are clamped into [0, |s|] and, if
   * the first ends up past the second, the two are swapped.
   */
  function Substring(s: string, start: int, end: int): (r: string)
    ensures |r| <= |s|
    ensures 0 <= start <= end <= |s| ==> r == s[start..end]
    ensures 0 <= end <= start <= |s| ==> r == s[end..start]
  {
    var a, b := Clamp(start, |s|), Clamp(end, |s|);
    if a <= b then s[a..b] else s[b..a]
  }

  /** The order of the two arguments of `substring` does not matter. */
  lemma SubstringSymmetric(s: string, start: int, end: int)
    ensures Substring(s, start, end) == Substring(s, end, start)
  {
  }

  /** Bounds past the end behave as the end. */
  lemma SubstringPastEnd(s: string, start: nat, end: int)
    requires start <= |s| <= end
    ensures Substring(s, start, end) == s[start..]
  {
  }

  /** A piece lying inside a prefix of s is the same piece of that prefix. */
  lemma SubstringOfPrefix(s: string, t: string, start: nat, end: nat)
    requires start <= end <= |s|
    ensures Substring(s + t, start, end) == Substring(s, start, end)
  {
    assert (s + t)[start..end] == s[start..end];
  }

  // ---------------------------------------------------------------------------
  // formatDateYYYYMMDD

  /** `${s.substring(0, 4)}年${s.substring(4, 6)}月${s.substring(6, 8)}日`. */
  function FormatDateYYYYMMDD(s: string): (r: string)
    ensures |r| == (if |s| < 8 then |s| else 8) + 3
    ensures r[|r| - 1] == '日'
  {
    Substring(s, 0, 4) + "年" + Substring(s, 4, 6) + "月" + Substring(s, 6, 8) + "日"
  }

  /** The position p cut down to the length of s: where a piece of s really ends. */
  function Cut(p: nat, s: string): (c: nat)
    ensures c <= |s| && c <= p
    ensures c == p || c == |s|
  {
    if p < |s| then p else |s|
  }

  /**
   * Every input, whatever its length, is shown as its first four characters,
   * 年, the next two, 月, the two after them and 日; pieces past the end of the
   * input come out shorter or empty.
   */
  lemma FormatPieces(s: string)
    ensures FormatDateYYYYMMDD(s)
      == s[..Cut(4, s)] + "年" + s[Cut(4, s)..Cut(6, s)] + "月" + s[Cut(6, s)..Cut(8, s)] + "日"
  {
  }

  /** A six-character input has an empty day piece: "202402" shows as 2024年02月日. */
  lemma FormatSixCharacters()
    ensures FormatDateYYYYMMDD("202402") == "2024年02月日"
  {
    var s := "202402";
    FormatPieces(s);
    assert s[..4] == "2024" && s[4..6] == "02" && s[6..6] == [];
  }

  /** An input of eight characters or more is shown as its first eight, split 4/2/2. */
  lemma FormatLongInput(s: string)
    requires |s| >= 8
    ensures FormatDateYYYYMMDD(s) == s[..4] + "年" + s[4..6] + "月" + s[6..8] + "日"
  {
  }

  /** Characters after the eighth are ignored. */
  lemma FormatIgnoresTail(s: string, t: string)
    requires |s| == 8
    ensures FormatDateYYYYMMDD(s + t) == FormatDateYYYYMMDD(s)
  {
    SubstringOfPrefix(s, t, 0, 4);
    SubstringOfPrefix(s, t, 4, 6);
    SubstringOfPrefix(s, t, 6, 8);
  }

  /** A short input never fails: its pieces are just shorter, or empty. */
  lemma FormatShortInput(s: string)
    requires |s| <= 4
    ensures FormatDateYYYYMMDD(s) == s + "年月日"
  {
    assert Substring(s, 4, 6) == [] && Substring(s, 6, 8) == [];
  }

  /** The eight characters read back from a formatted eight-character string. */
  function UnformatYYYYMMDD(r: string): (s: string)
    requires |r| == 11
    ensures |s| == 8
  {
    r[..4] + r[5..7] + r[8..10]
  }

  /**
   * The formatter loses nothing from an eight-character input: every
   * character, zero-padding included, is shown in place.
   */
  lemma FormatYYYYMMDDRoundTrip(s: string)
    requires |s| == 8
    ensures |FormatDateYYYYMMDD(s)| == 11
    ensures UnformatYYYYMMDD(FormatDateYYYYMMDD(s)) == s
  {
    FormatLongInput(s);
    var r := FormatDateYYYYMMDD(s);
    assert r[..4] == s[..4] && r[5..7] == s[4..6] && r[8..10] == s[6..8];
    assert s == s[..4] + s[4..6] + s[6..8];
  }

  /** Two different eight-character inputs are never shown alike. */
  lemma FormatYYYYMMDDInjective(s: string, t: string)
    requires |s| == 8 && |t| == 8
    requires FormatDateYYYYMMDD(s) == FormatDateYYYYMMDD(t)
    ensures s == t
  {
    FormatYYYYMMDDRoundTrip(s);
    FormatYYYYMMDDRoundTrip(t);
  }

  /** Hyphens are not removed first, so a hyphenated date is sliced through its hyphens. */
  lemma FormatHyphenated()
    ensures FormatDateYYYYMMDD("2024-02-15") == "2024年-0月2-日"
  {
    FormatLongInput("2024-02-15");
  }

  // ---------------------------------------------------------------------------
  // formatDate

  /** A `Date` as its local getters see it: an invalid date has NaN for every field. */
  datatype JsDate = NaNDate | ValidJsDate(fields: CalendarDate)

  /** `${getFullYear()}年${getMonth() + 1}月${getDate()}日`. */
  function FormatDate(d: JsDate): (r: string)
    requires d.ValidJsDate? ==> IsValidDate(d.fields)
    ensures |r| >= 6 && r[|r| - 1] == '日'
    ensures d.NaNDate? ==> r == "NaN年NaN月NaN日"
  {
    match d
    case NaNDate => "NaN年NaN月NaN日"
    case ValidJsDate(f) => IntToString(f.year) + "年" + NatToString(f.month0 + 1) + "月" + NatToString(f.day) + "日"
  }

  /**
   * Splits a string of the form `<y>年<m>月<d>日` at its first 年 and the first
   * 月 after it; None when a separator or the final 日 is missing.
   */
  function SplitFormatted(r: string): Option<(string, string, string)> {
    match SplitOnce(r, '年')
    case None => None
    case Some((ys, rest)) =>
      match SplitOnce(rest, '月')
      case None => None
      case Some((ms, tail)) =>
        if tail == [] || tail[|tail| - 1] != '日' then None
        else Some((ys, ms, tail[..|tail| - 1]))
  }

  /** Reads a rendered date back, with a 0-based month; None when a piece does not parse. */
  function ReadFormattedDate(r: string): Option<CalendarDate> {
    ReadPieces(SplitFormatted(r))
  }

  /** parseInt on each of the three pieces. */
  function ReadPieces(pieces: Option<(string, string, string)>): Option<CalendarDate> {
    match pieces
    case None => None
    case Some((ys, ms, ds)) => DateConversion.CombineFields(ParseInt(ys), ParseInt(ms), ParseInt(ds))
  }

  /** A natural number renders identically through both functions. */
  lemma NatRendersAlike(n: nat)
    ensures IntToString(n) == NatToString(n)
  {
  }

  /** The splitter finds the three pieces again when they hold no separator. */
  lemma SplitParts(ys: string, ms: string, ds: string)
    requires Excludes(ys, '年') && Excludes(ms, '月')
    ensures SplitFormatted(ys + "年" + ms + "月" + ds + "日") == Some((ys, ms, ds))
  {
    var tail := ds + "日";
    var rest := ms + ['月'] + tail;
    assert ys + "年" + ms + "月" + ds + "日" == ys + ['年'] + rest;
    SplitOnceAt(ys, '年', rest);
    SplitOnceAt(ms, '月', tail);
    assert tail[..|tail| - 1] == ds;
  }

  /** Reading the rendering of a valid date gives the date back. */
  lemma FormatDateRoundTrip(f: CalendarDate)
    requires IsValidDate(f)
    ensures ReadFormattedDate(FormatDate(ValidJsDate(f))) == Some(f)
  {
    var ys, ms, ds := IntToString(f.year), NatToString(f.month0 + 1), NatToString(f.day);
    var r := FormatDate(ValidJsDate(f));
    assert SplitFormatted(r) == Some((ys, ms, ds)) by {
      assert r == ys + "年" + ms + "月" + ds + "日";
      IntToStringChars(f.year);
      assert Excludes(ys, '年');
      assert Excludes(ms, '月') by {
        assert AllDigits(ms);
      }
      SplitParts(ys, ms, ds);
    }
    ParseIntToString(f.year);
    NatRendersAlike(f.month0 + 1);
    ParseIntToString(f.month0 + 1);
    NatRendersAlike(f.day);
    ParseIntToString(f.day);
    assert ReadPieces(Some((ys, ms, ds))) == Some(f);
  }

  /** Different valid dates are rendered differently. */
  lemma FormatDateInjective(f: CalendarDate, g: CalendarDate)
    requires IsValidDate(f) && IsValidDate(g)
    requires FormatDate(ValidJsDate(f)) == FormatDate(ValidJsDate(g))
    ensures f == g
  {
    FormatDateRoundTrip(f);
    FormatDateRoundTrip(g);
  }

  /** The month is shown one-based and without zero-padding: the character after 年 is never '0'. */
  lemma FormatDateMonthUnpadded(f: CalendarDate)
    requires IsValidDate(f)
    ensures FormatDate(ValidJsDate(f))[|IntToString(f.year)| + 1] != '0'
    ensures FormatDate(ValidJsDate(f))[|IntToString(f.year)| + 1] == NatToString(f.month0 + 1)[0]
  {
    var ys := IntToString(f.year);
    var ms := NatToString(f.month0 + 1);
    var head, tail := ys + "年", ms + "月" + NatToString(f.day) + "日";
    assert FormatDate(ValidJsDate(f)) == head + tail;
    assert |head| == |ys| + 1;
    assert (head + tail)[|head|] == tail[0] == ms[0];
  }

  /** 5 February 2024 (month field 1) is shown as 2024年2月5日. */
  lemma FormatDateExample()
    ensures FormatDate(ValidJsDate(CalendarDate(2024, 1, 5))) == "2024年2月5日"
  {
    assert NatToString(2024) == "2024" by {
      assert NatToString(2) == "2";
      assert NatToString(20) == "20";
      assert NatToString(202) == "202";
    }
  }

  /**
   * The two formatters disagree on the same day: for a four-digit year and a
   * month before October, the card shows the zero-padded month digit '0' right
   * after 年, where `formatDate` shows the month's own first digit.
   */
  lemma FormattersDiffer(f: CalendarDate)
    requires IsValidDate(f) && 1000 <= f.year <= 9999 && f.month0 < 9
    ensures FormatDateYYYYMMDD(DateConversion.CompactFields(f.year, f.month0 + 1, f.day))[5] == '0'
    ensures FormatDate(ValidJsDate(f))[5] != '0'
  {
    var s := DateConversion.CompactFields(f.year, f.month0 + 1, f.day);
    assert s[4] == '0' by {
      PaddedMonthDigit(f.year, f.month0 + 1, f.day);
    }
    FormatLongInput(s);
    YearWidth(f.year);
    FormatDateMonthUnpadded(f);
  }

  /** A month below 10 is written with a leading '0' in the compact form. */
  lemma PaddedMonthDigit(year: nat, month: nat, day: nat)
    requires year < 10000 && month < 10 && day < 100
    ensures DateConversion.CompactFields(year, month, day)[4] == '0'
  {
    var m := FixedDigits(month, 2);
    assert m == FixedDigits(0, 1) + [DigitChar(month)];
    assert DateConversion.CompactFields(year, month, day)[4] == m[0];
  }

  /** A four-digit year renders as four characters. */
  lemma YearWidth(year: int)
    requires 1000 <= year <= 9999
    ensures |IntToString(year)| == 4
  {
    assert NatToString(year) == NatToString(year / 10) + [DigitChar(year % 10)];
    assert NatToString(year / 10) == NatToString(year / 100) + [DigitChar(year / 10 % 10)];
    assert NatToString(year / 100) == NatToString(year / 1000) + [DigitChar(year / 100 % 10)];
  }
}

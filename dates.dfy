/** Calendar dates as the scraper handles them: `find_and_format_dates`
    scans page text for `dd/mm/yyyy`,
    validates each match as `datetime.strptime(.., '%d/%m/%Y')` does, and
    re-emits the latest one as `yyyy-mm-dd`; the store compares those
    strings with SQLite's `>=` against `(now - timedelta(days)).strftime(..)`. */
module Dates {
  import opened Text
  import opened Wrappers
  import opened Decimal

  datatype Date = Date(year: int, month: int, day: int)

  /** Proleptic Gregorian leap years, as Python's `calendar.isleap`. */
  predicate IsLeapYear(y: int) {
    y % 4 == 0 && (y % 100 != 0 || y % 400 == 0)
  }

  function DaysInMonth(y: int, m: int): int
    requires 1 <= m <= 12
  {
    if m == 2 then (if IsLeapYear(y) then 29 else 28)
    else if m == 4 || m == 6 || m == 9 || m == 11 then 30
    else 31
  }

  /** What `datetime` accepts: years 1 to 9999, months 1 to 12, and a day
      that exists in that month of that year. */
  predicate ValidDate(d: Date) {
    1 <= d.year <= 9999 && 1 <= d.month <= 12 && 1 <= d.day <= DaysInMonth(d.year, d.month)
  }

  /** Chronological order. */
  predicate DateLess(a: Date, b: Date) {
    a.year < b.year
    || (a.year == b.year && a.month < b.month)
    || (a.year == b.year && a.month == b.month && a.day < b.day)
  }

  predicate DateLe(a: Date, b: Date) {
    a == b || DateLess(a, b)
  }

  // ---------------------------------------------------------------------
  // Scanning and parsing

  /** Ten characters of the form `\d\d/\d\d/\d\d\d\d` (ASCII digits). */
  predicate HasDateShape(m: string) {
    |m| == 10
    && IsDigit(m[0]) && IsDigit(m[1]) && m[2] == '/'
    && IsDigit(m[3]) && IsDigit(m[4]) && m[5] == '/'
    && IsDigit(m[6]) && IsDigit(m[7]) && IsDigit(m[8]) && IsDigit(m[9])
  }

  /** `re.findall(r'(\d{2}/\d{2}/\d{4})', s)`: the leftmost match, then the
      search resumes after it, so matches never overlap. */
  function DateMatches(s: string): (ms: seq<string>)
    ensures forall i :: 0 <= i < |ms| ==> HasDateShape(ms[i]) && IsSubstring(ms[i], s)
    decreases |s|
  {
    if |s| < 10 then []
    else if HasDateShape(s[..10]) then
      var rest := DateMatches(s[10..]);
      assert forall i :: 0 <= i < |rest| ==> IsSubstring(rest[i], s) by {
        forall i | 0 <= i < |rest|
          ensures IsSubstring(rest[i], s)
        {
          assert s == s[..10] + s[10..] + "";
          SubstringInContext(rest[i], s[..10], s[10..], "");
        }
      }
      assert OccursAt(s[..10], s, 0);
      [s[..10]] + rest
    else
      var rest := DateMatches(s[1..]);
      assert forall i :: 0 <= i < |rest| ==> IsSubstring(rest[i], s) by {
        forall i | 0 <= i < |rest|
          ensures IsSubstring(rest[i], s)
        {
          assert s == s[..1] + s[1..] + "";
          SubstringInContext(rest[i], s[..1], s[1..], "");
        }
      }
      rest
  }

  /** `datetime.strptime(m, '%d/%m/%Y')` on a string the scan produced:
      the date when it exists, `None` where Python raises `ValueError`
      (day or month out of range, year 0000, 29 February of a common
      year, ...). */
  function ParseDate(m: string): (r: Option<Date>)
    ensures r.Some? ==> ValidDate(r.value)
  {
    if !HasDateShape(m) then None
    else
      var d := Date(DigitsValue(m[6..10]), DigitsValue(m[3..5]), DigitsValue(m[0..2]));
      if ValidDate(d) then Some(d) else None
  }

  /** The `dd/mm/yyyy` text of a date. */
  function DateText(d: Date): (m: string)
    requires ValidDate(d)
    ensures HasDateShape(m)
  {
    PadDigits(d.day, 2) + "/" + PadDigits(d.month, 2) + "/" + PadDigits(d.year, 4)
  }

  /** `strptime` accepts the text of every valid date and reads back that
      date ... */
  lemma ParseDateAccepts(d: Date)
    requires ValidDate(d)
    ensures ParseDate(DateText(d)) == Some(d)
  {
    var m := DateText(d);
    assert Pow10(2) == 100 && Pow10(4) == 10000 by {
      assert Pow10(1) == 10;
    }
    assert m[0..2] == PadDigits(d.day, 2);
    assert m[3..5] == PadDigits(d.month, 2);
    assert m[6..10] == PadDigits(d.year, 4);
    PadDigitsValue(d.day, 2);
    PadDigitsValue(d.month, 2);
    PadDigitsValue(d.year, 4);
  }

  /** A field of digits is the padded text of its own value. */
  lemma FieldIsPadded(f: string, n: nat, w: nat)
    requires |f| == w && AllDigits(f) && DigitsValue(f) == n && n < Pow10(w)
    ensures f == PadDigits(n, w)
  {
    PadDigitsValue(n, w);
    DigitsValueInjective(f, PadDigits(n, w));
  }

  /** ... and a string it accepts is exactly the text of the date it
      returns, so the two are inverse on valid dates. */
  lemma ParseDateExact(m: string, d: Date)
    requires ParseDate(m) == Some(d)
    ensures ValidDate(d) && m == DateText(d)
  {
    assert Pow10(2) == 100 && Pow10(4) == 10000 by {
      assert Pow10(1) == 10;
    }
    var dd, mm, yyyy := m[0..2], m[3..5], m[6..10];
    FieldIsPadded(dd, d.day, 2);
    FieldIsPadded(mm, d.month, 2);
    FieldIsPadded(yyyy, d.year, 4);
    var t := DateText(d);
    assert t == dd + "/" + mm + "/" + yyyy;
    forall k | 0 <= k < 10
      ensures m[k] == t[k]
    {
      if k < 2 {
        assert m[k] == dd[k];
      } else if 3 <= k < 5 {
        assert m[k] == mm[k - 3];
      } else if 6 <= k {
        assert m[k] == yyyy[k - 6];
      }
    }
  }

  /** A string parses to `d` exactly when `d` is valid and the string is
      its `dd/mm/yyyy` text. */
  lemma ParseDateIsDateText(m: string, d: Date)
    ensures ParseDate(m) == Some(d) <==> ValidDate(d) && m == DateText(d)
  {
    if ParseDate(m) == Some(d) {
      ParseDateExact(m, d);
    }
    if ValidDate(d) && m == DateText(d) {
      ParseDateAccepts(d);
    }
  }

  /** A date-shaped window of `s` starts at `j`. */
  predicate DateAt(s: string, j: int) {
    0 <= j && j + 10 <= |s| && HasDateShape(s[j..j + 10])
  }

  /** The leftmost date-shaped window, at `i`, is the first match, and the
      scan resumes right after it ... */
  lemma {:induction false} DateMatchesFirst(s: string, i: nat)
    requires DateAt(s, i)
    requires forall j :: 0 <= j < i ==> !DateAt(s, j)
    ensures DateMatches(s) == [s[i..i + 10]] + DateMatches(s[i + 10..])
    decreases i
  {
    if i == 0 {
      assert s[..10] == s[0..10];
    } else {
      assert !DateAt(s, 0);
      assert s[0..10] == s[..10];
      var t := s[1..];
      assert t[i - 1..i + 9] == s[i..i + 10];
      forall j | 0 <= j < i - 1
        ensures !DateAt(t, j)
      {
        assert !DateAt(s, j + 1);
        assert t[j..j + 10] == s[j + 1..j + 11];
      }
      DateMatchesFirst(t, i - 1);
      assert t[i + 9..] == s[i + 10..];
    }
  }

  /** ... and a string without any date-shaped window has no match. */
  lemma {:induction false} DateMatchesNone(s: string)
    requires forall j :: !DateAt(s, j)
    ensures DateMatches(s) == []
    decreases |s|
  {
    if |s| >= 10 {
      assert !DateAt(s, 0);
      assert s[0..10] == s[..10];
      var t := s[1..];
      forall j | 0 <= j && j + 10 <= |t|
        ensures !DateAt(t, j)
      {
        assert !DateAt(s, j + 1);
        assert t[j..j + 10] == s[j + 1..j + 11];
      }
      DateMatchesNone(t);
    }
  }

  /** The latest of two optional dates, keeping the earlier-seen one on a
      tie, as `if latest_date is None or current_date > latest_date`. */
  function Later(acc: Option<Date>, cur: Option<Date>): Option<Date> {
    if cur.None? then acc
    else if acc.None? || DateLess(acc.value, cur.value) then cur
    else acc
  }

  /** The value of `latest_date` after the loop has seen `ms`. */
  function LatestOf(ms: seq<string>): (r: Option<Date>)
    ensures r.Some? ==> ValidDate(r.value)
    decreases |ms|
  {
    if ms == [] then None else Later(LatestOf(ms[..|ms| - 1]), ParseDate(ms[|ms| - 1]))
  }

  // ---------------------------------------------------------------------
  // Formatting

  /** `d.strftime('%Y-%m-%d')`, with the year padded to four digits. */
  function FormatDate(d: Date): (s: string)
    requires ValidDate(d)
    ensures |s| == 10 && s[4] == '-' && s[7] == '-'
  {
    PadDigits(d.year, 4) + "-" + (PadDigits(d.month, 2) + "-" + PadDigits(d.day, 2))
  }

  /** What `find_and_format_dates(content)` returns. */
  function LatestDateString(content: string): Option<string> {
    match LatestOf(DateMatches(content))
    case None => None
    case Some(d) => Some(FormatDate(d))
  }

  /** One pass of the loop of `find_and_format_dates` over the matches,
      then the formatting. */
  method FindAndFormatDates(content: string) returns (r: Option<string>)
    ensures r == LatestDateString(content)
    ensures r.None? <==> forall i :: 0 <= i < |DateMatches(content)| ==> ParseDate(DateMatches(content)[i]).None?
    ensures r.Some? ==> |r.value| == 10
  {
    if content == "" {
      return None;
    }
    var found := DateMatches(content);
    if found == [] {
      return None;
    }
    var latest: Option<Date> := None;
    var i := 0;
    while i < |found|
      invariant 0 <= i <= |found|
      invariant latest == LatestOf(found[..i])
    {
      assert found[..i + 1][..i] == found[..i];
      var current := ParseDate(found[i]);
      if current.Some? && (latest.None? || DateLess(latest.value, current.value)) {
        latest := current;
      }
      i := i + 1;
    }
    assert found[..i] == found;
    LatestOfIsLatest(found);
    if latest.Some? {
      r := Some(FormatDate(latest.value));
    } else {
      r := None;
    }
  }

  /** `LatestOf` is `None` exactly when no match is a valid date, and
      otherwise it is a valid match no other valid match comes after. */
  lemma {:induction false} LatestOfIsLatest(ms: seq<string>)
    ensures LatestOf(ms).None? <==> forall i :: 0 <= i < |ms| ==> ParseDate(ms[i]).None?
    ensures LatestOf(ms).Some? ==>
      (exists i :: 0 <= i < |ms| && ParseDate(ms[i]) == LatestOf(ms))
      && forall j :: 0 <= j < |ms| && ParseDate(ms[j]).Some? ==> DateLe(ParseDate(ms[j]).value, LatestOf(ms).value)
    decreases |ms|
  {
    if ms != [] {
      var init := ms[..|ms| - 1];
      LatestOfIsLatest(init);
      assert forall i :: 0 <= i < |init| ==> ms[i] == init[i];
      var acc, cur := LatestOf(init), ParseDate(ms[|ms| - 1]);
      if acc.Some? {
        var k :| 0 <= k < |init| && ParseDate(init[k]) == acc;
        assert ParseDate(ms[k]) == acc;
      }
      if LatestOf(ms).Some? {
        forall j | 0 <= j < |ms| && ParseDate(ms[j]).Some?
          ensures DateLe(ParseDate(ms[j]).value, LatestOf(ms).value)
        {
          if j < |init| {
            assert ParseDate(init[j]).Some?;
          }
        }
      }
    }
  }

  /** The result of `find_and_format_dates` is the formatted latest valid
      date among the matches; `None` when the content is empty, has no
      `dd/mm/yyyy` match, or only invalid ones. */
  lemma LatestDateStringSpec(content: string)
    ensures content == "" ==> LatestDateString(content) == None
    ensures var ms := DateMatches(content);
      LatestDateString(content) == None <==> forall i :: 0 <= i < |ms| ==> ParseDate(ms[i]).None?
    ensures var ms := DateMatches(content);
      LatestDateString(content).Some? ==>
        exists i :: 0 <= i < |ms| && ParseDate(ms[i]).Some?
          && LatestDateString(content).value == FormatDate(ParseDate(ms[i]).value)
          && forall j :: 0 <= j < |ms| && ParseDate(ms[j]).Some? ==> DateLe(ParseDate(ms[j]).value, ParseDate(ms[i]).value)
  {
    var ms := DateMatches(content);
    LatestOfIsLatest(ms);
    if LatestOf(ms).Some? {
      var i :| 0 <= i < |ms| && ParseDate(ms[i]) == LatestOf(ms);
      assert LatestDateString(content).value == FormatDate(ParseDate(ms[i]).value);
    }
  }

  // ---------------------------------------------------------------------
  // Day arithmetic: `datetime.now() - timedelta(days=n)`

  function DaysInYear(y: int): int {
    if IsLeapYear(y) then 366 else 365
  }

  /** Days in the months of year `y` before month `m`. */
  function DaysBeforeMonth(y: int, m: int): int
    requires 1 <= m <= 13
    decreases m
  {
    if m == 1 then 0 else DaysBeforeMonth(y, m - 1) + DaysInMonth(y, m - 1)
  }

  /** Days in the years 1 .. y-1. */
  function DaysBeforeYear(y: int): int
    decreases y
  {
    if y <= 1 then 0 else DaysBeforeYear(y - 1) + DaysInYear(y - 1)
  }

  /** `date.toordinal()`: 0001-01-01 is day 1. */
  function Ordinal(d: Date): int
    requires ValidDate(d)
  {
    DaysBeforeYear(d.year) + DaysBeforeMonth(d.year, d.month) + d.day
  }

  /** The twelve months make up the year. */
  lemma DaysBeforeMonthFullYear(y: int)
    ensures DaysBeforeMonth(y, 13) == DaysInYear(y)
  {
    assert DaysBeforeMonth(y, 3) == 31 + DaysInMonth(y, 2);
    assert DaysBeforeMonth(y, 7) == DaysBeforeMonth(y, 3) + 31 + 30 + 31 + 30;
    assert DaysBeforeMonth(y, 13) == DaysBeforeMonth(y, 7) + 31 + 31 + 30 + 31 + 30 + 31;
  }

  /** The day before a date, as `d - timedelta(days=1)`. */
  function PrevDay(d: Date): (r: Date)
    requires ValidDate(d) && Ordinal(d) > 1
    ensures ValidDate(r) && Ordinal(r) == Ordinal(d) - 1
  {
    if d.day > 1 then Date(d.year, d.month, d.day - 1)
    else if d.month > 1 then
      Date(d.year, d.month - 1, DaysInMonth(d.year, d.month - 1))
    else
      DaysBeforeMonthFullYear(d.year - 1);
      Date(d.year - 1, 12, 31)
  }

  /** `d - timedelta(days=n)`. Python raises `OverflowError` when the
      result would fall before 0001-01-01; the precondition is exactly the
      absence of that error. */
  function DaysBefore(d: Date, n: nat): (r: Date)
    requires ValidDate(d) && Ordinal(d) > n
    ensures ValidDate(r) && Ordinal(r) == Ordinal(d) - n
    decreases n
  {
    if n == 0 then d else DaysBefore(PrevDay(d), n - 1)
  }

  /** Within a year, later months start later. */
  lemma {:induction false} DaysBeforeMonthMonotone(y: int, m1: int, m2: int)
    requires 1 <= m1 < m2 <= 13
    ensures DaysBeforeMonth(y, m1) + DaysInMonth(y, m1) <= DaysBeforeMonth(y, m2)
    decreases m2 - m1
  {
    if m1 + 1 < m2 {
      DaysBeforeMonthMonotone(y, m1 + 1, m2);
    }
  }

  lemma {:induction false} DaysBeforeYearMonotone(y1: int, y2: int)
    requires 1 <= y1 < y2
    ensures DaysBeforeYear(y1) + DaysInYear(y1) <= DaysBeforeYear(y2)
    decreases y2 - y1
  {
    if y1 + 1 < y2 {
      DaysBeforeYearMonotone(y1 + 1, y2);
    }
  }

  /** A valid date lies inside its year. */
  lemma OrdinalWithinYear(d: Date)
    requires ValidDate(d)
    ensures DaysBeforeYear(d.year) < Ordinal(d) <= DaysBeforeYear(d.year) + DaysInYear(d.year)
  {
    DaysBeforeMonthMonotone(d.year, d.month, 13);
    DaysBeforeMonthFullYear(d.year);
  }

  /** Chronological order is ordinal order. */
  lemma DateLessIsOrdinalLess(a: Date, b: Date)
    requires ValidDate(a) && ValidDate(b)
    ensures DateLess(a, b) <==> Ordinal(a) < Ordinal(b)
    ensures a == b <==> Ordinal(a) == Ordinal(b)
  {
    if a.year < b.year {
      DaysBeforeYearMonotone(a.year, b.year);
      OrdinalWithinYear(a);
      OrdinalWithinYear(b);
    } else if b.year < a.year {
      DaysBeforeYearMonotone(b.year, a.year);
      OrdinalWithinYear(a);
      OrdinalWithinYear(b);
    } else if a.month < b.month {
      DaysBeforeMonthMonotone(a.year, a.month, b.month);
    } else if b.month < a.month {
      DaysBeforeMonthMonotone(a.year, b.month, a.month);
    }
  }

  /** A padded field determines its number. */
  lemma PadDigitsInjective(a: nat, b: nat, w: nat)
    requires a < Pow10(w) && b < Pow10(w)
    ensures PadDigits(a, w) == PadDigits(b, w) <==> a == b
  {
    PadDigitsValue(a, w);
    PadDigitsValue(b, w);
  }

  /** Code-point order on `yyyy-mm-dd` strings is chronological order, so
      the store's `Last_update >= cutoff` on TEXT compares dates. */
  lemma FormatDateOrder(a: Date, b: Date)
    requires ValidDate(a) && ValidDate(b)
    ensures LexLess(FormatDate(a), FormatDate(b)) <==> DateLess(a, b)
    ensures FormatDate(a) == FormatDate(b) <==> a == b
  {
    assert Pow10(2) == 100;
    assert Pow10(4) == 10000 by {
      assert Pow10(3) == 1000;
    }
    var ya, ma, da := PadDigits(a.year, 4), PadDigits(a.month, 2), PadDigits(a.day, 2);
    var yb, mb, db := PadDigits(b.year, 4), PadDigits(b.month, 2), PadDigits(b.day, 2);
    SeparatedOrder(ya, yb, '-', ma + "-" + da, mb + "-" + db);
    SeparatedOrder(ma, mb, '-', da, db);
    SeparatedEqual(ya, yb, '-', ma + "-" + da, mb + "-" + db);
    SeparatedEqual(ma, mb, '-', da, db);
    PadDigitsOrder(a.year, b.year, 4);
    PadDigitsOrder(a.month, b.month, 2);
    PadDigitsOrder(a.day, b.day, 2);
    PadDigitsInjective(a.year, b.year, 4);
    PadDigitsInjective(a.month, b.month, 2);
    PadDigitsInjective(a.day, b.day, 2);
  }
}

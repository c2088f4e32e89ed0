/** Protocol identifiers as the web application shows and reads them:
    `f"{year}/{str(number).zfill(5)}"` when a row is listed
    and `year, number = pid.split('/')` followed by `int(year)` and
    `int(number)` when one is looked up. */
module Pids {
  import opened Text
  import opened Wrappers
  import opened Decimal
  import opened Unicode

  /** `str(i)` for any integer. */
  function IntToString(i: int): (s: string)
    ensures |s| >= 1 && (s[0] == '-' || IsDigit(s[0])) && IsDigit(s[|s| - 1])
    ensures forall k :: 0 < k < |s| ==> IsDigit(s[k])
  {
    if i < 0 then "-" + NatToString(-i) else NatToString(i)
  }

  /** `s.zfill(w)`: left-pad with '0' to width `w`, keeping a leading sign
      in front of the padding; strings already `w` long are unchanged. */
  function ZFill(s: string, w: nat): (r: string)
    ensures |r| == if |s| >= w then |s| else w
    ensures |s| >= w ==> r == s
  {
    if |s| >= w then s
    else if |s| > 0 && (s[0] == '+' || s[0] == '-') then [s[0]] + Repeat('0', w - |s|) + s[1..]
    else Repeat('0', w - |s|) + s
  }

  /** The body `int()` accepts after the optional sign: ASCII digits, with
      single underscores allowed between two digits. */
  predicate IsDigitRun(b: string) {
    |b| > 0 && IsDigit(b[0]) && IsDigit(b[|b| - 1])
    && (forall i :: 0 <= i < |b| ==> IsDigit(b[i]) || b[i] == '_')
    && !IsSubstring("__", b)
  }

  function DropUnderscores(b: string): (r: string)
    requires forall i :: 0 <= i < |b| ==> IsDigit(b[i]) || b[i] == '_'
    ensures AllDigits(r)
  {
    Remove(c => c == '_', b)
  }

  /** `int(s)` in base 10: surrounding white space is ignored, one optional
      sign, then a digit run; anything else is the `ValueError` case. */
  function ParseInt(db: UnicodeDb, s: string): (r: Option<int>)
    ensures r.Some? ==> Strip(db, s) != ""
  {
    ParseStripped(Strip(db, s))
  }

  /** `int()` once the white space is gone: one optional sign, then a
      digit run. */
  function ParseStripped(t: string): (r: Option<int>)
    ensures r.Some? ==> t != ""
  {
    var body := Unsigned(t);
    if !IsDigitRun(body) then None
    else
      var v: int := DigitsValue(DropUnderscores(body));
      Some(if IsNegative(t) then -v else v)
  }

  /** `t` without its leading sign, if it has one. */
  function Unsigned(t: string): (b: string)
    ensures |b| <= |t|
  {
    if |t| > 0 && (t[0] == '-' || t[0] == '+') then t[1..] else t
  }

  predicate IsNegative(t: string) {
    |t| > 0 && t[0] == '-'
  }

  /** The database agrees with ASCII that digits and signs are not white
      space. */
  ghost predicate NumeralsAreNotSpace(db: UnicodeDb) {
    !db.isSpace('-') && forall c {:trigger db.isSpace(c)} :: IsDigit(c) ==> !db.isSpace(c)
  }

  /** The identifier shown for row `(year, number)`. */
  function FormatPid(year: int, number: int): (pid: string)
    ensures '/' in pid
  {
    IntToString(year) + "/" + ZFill(IntToString(number), 5)
  }

  /** The parse in `get_single_protocol_content`: exactly two '/'-separated
      parts, each an integer; `None` where Python raises `ValueError`. */
  function ParsePid(db: UnicodeDb, pid: string): Option<(int, int)> {
    var parts := Split(pid, '/');
    if |parts| != 2 then None
    else
      match (ParseInt(db, parts[0]), ParseInt(db, parts[1]))
      case (Some(y), Some(n)) => Some((y, n))
      case _ => None
  }

  /** A plain run of ASCII digits is a digit run with nothing to drop. */
  lemma PlainDigitRun(body: string)
    requires |body| > 0 && AllDigits(body)
    ensures IsDigitRun(body) && DropUnderscores(body) == body
  {
    RemoveNothing(c => c == '_', body);
    forall i | 0 <= i <= |body| - 2
      ensures !OccursAt("__", body, i)
    {
      assert body[i..i + 2][0] == body[i];
    }
  }

  /** A run of ASCII digits is already stripped, and it is a digit run
      with nothing to drop ... */
  lemma PlainNumeralShape(db: UnicodeDb, body: string)
    requires NumeralsAreNotSpace(db)
    requires |body| > 0 && AllDigits(body)
    ensures Strip(db, body) == body && Unsigned(body) == body && !IsNegative(body)
    ensures IsDigitRun(body) && DropUnderscores(body) == body
  {
    PlainDigitRun(body);
    NumeralStripped(db, body);
  }

  /** ... and so is one behind a minus sign ... */
  lemma NegativeNumeralShape(db: UnicodeDb, s: string, body: string)
    requires NumeralsAreNotSpace(db)
    requires |body| > 0 && AllDigits(body)
    requires |s| > 0 && s[0] == '-' && s[1..] == body
    ensures Strip(db, s) == s && Unsigned(s) == body && IsNegative(s)
    ensures IsDigitRun(body) && DropUnderscores(body) == body
  {
    PlainDigitRun(body);
    assert s[|s| - 1] == body[|body| - 1];
    NumeralStripped(db, s);
  }

  /** A numeral that starts with a digit or a minus sign and ends with a
      digit has no white space to strip. */
  lemma NumeralStripped(db: UnicodeDb, s: string)
    requires NumeralsAreNotSpace(db)
    requires |s| > 0 && (IsDigit(s[0]) || s[0] == '-') && IsDigit(s[|s| - 1])
    ensures Strip(db, s) == s
  {
    assert !db.isSpace(s[0]) && !db.isSpace(s[|s| - 1]);
    StripNothing(db, s);
  }

  /** `ParseInt` once its pieces are known. */
  lemma ParseIntOfPieces(db: UnicodeDb, s: string, t: string, body: string, v: int)
    requires Strip(db, s) == t && Unsigned(t) == body && IsDigitRun(body)
    requires DigitsValue(DropUnderscores(body)) == v
    ensures ParseInt(db, s) == Some(if IsNegative(t) then -v else v)
  {
    ParseStrippedOfPieces(t, body, v);
  }

  lemma ParseStrippedOfPieces(t: string, body: string, v: int)
    requires Unsigned(t) == body && IsDigitRun(body)
    requires DigitsValue(DropUnderscores(body)) == v
    ensures ParseStripped(t) == Some(if IsNegative(t) then -v else v)
  {
  }

  /** ... so it reads back as its value ... */
  lemma ParseDigits(db: UnicodeDb, body: string)
    requires NumeralsAreNotSpace(db)
    requires |body| > 0 && AllDigits(body)
    ensures ParseInt(db, body) == Some(DigitsValue(body) as int)
  {
    PlainNumeralShape(db, body);
    ParseIntOfPieces(db, body, body, body, DigitsValue(body));
  }

  /** ... and behind a minus sign as its negated value. */
  lemma ParseNegativeDigits(db: UnicodeDb, s: string, body: string)
    requires NumeralsAreNotSpace(db)
    requires |body| > 0 && AllDigits(body)
    requires |s| > 0 && s[0] == '-' && s[1..] == body
    ensures ParseInt(db, s) == Some(-(DigitsValue(body) as int))
  {
    NegativeNumeralShape(db, s, body);
    ParseIntOfPieces(db, s, s, body, DigitsValue(body));
  }

  /** A digit string with leading zeros reads back as its value ... */
  lemma ParseZeroPadded(db: UnicodeDb, k: nat, n: nat)
    requires NumeralsAreNotSpace(db)
    ensures ParseInt(db, Repeat('0', k) + NatToString(n)) == Some(n as int)
  {
    var d := NatToString(n);
    LeadingZerosValue(k, d);
    NatToStringValue(n);
    ParseDigits(db, Repeat('0', k) + d);
  }

  /** ... and so does one behind a minus sign, negated. */
  lemma ParseNegativeZeroPadded(db: UnicodeDb, k: nat, n: nat)
    requires NumeralsAreNotSpace(db)
    ensures ParseInt(db, "-" + (Repeat('0', k) + NatToString(n))) == Some(-(n as int))
  {
    var d := NatToString(n);
    var body := Repeat('0', k) + d;
    LeadingZerosValue(k, d);
    NatToStringValue(n);
    var s := "-" + body;
    assert s[1..] == body;
    ParseNegativeDigits(db, s, body);
  }

  /** `str(i).zfill(w)` is the sign of `i`, then zeros, then the digits
      of `|i|`. */
  lemma ZFillShape(i: int, w: nat)
    ensures var d := NatToString(if i < 0 then -i else i);
      var k: nat := if |IntToString(i)| >= w then 0 else w - |IntToString(i)|;
      ZFill(IntToString(i), w) == (if i < 0 then "-" + (Repeat('0', k) + d) else Repeat('0', k) + d)
  {
    var s := IntToString(i);
    assert Repeat('0', 0) == "";
    if i < 0 {
      assert s[1..] == NatToString(-i);
    }
  }

  /** `int(str(i).zfill(w)) == i` for every integer and width. */
  lemma ParseZFilled(db: UnicodeDb, i: int, w: nat)
    requires NumeralsAreNotSpace(db)
    ensures ParseInt(db, ZFill(IntToString(i), w)) == Some(i)
  {
    ZFillShape(i, w);
    var k: nat := if |IntToString(i)| >= w then 0 else w - |IntToString(i)|;
    var z := ZFill(IntToString(i), w);
    if i < 0 {
      var n: nat := -i;
      var t := "-" + (Repeat('0', k) + NatToString(n));
      assert z == t;
      ParseNegativeZeroPadded(db, k, n);
      assert ParseInt(db, t) == Some(i);
    } else {
      var n: nat := i;
      var t := Repeat('0', k) + NatToString(n);
      assert z == t;
      ParseZeroPadded(db, k, n);
      assert ParseInt(db, t) == Some(i);
    }
  }

  /** `int(str(i)) == i`. */
  lemma ParseIntToString(db: UnicodeDb, i: int)
    requires NumeralsAreNotSpace(db)
    ensures ParseInt(db, IntToString(i)) == Some(i)
  {
    ParseZFilled(db, i, 0);
  }

  /** Splitting on a separator that occurs exactly once, between two
      pieces free of it, gives the two pieces. */
  lemma {:induction false} SplitAtOnlySeparator(a: string, sep: char, b: string)
    requires sep !in a && sep !in b
    ensures Split(a + [sep] + b, sep) == [a, b]
    decreases |a|
  {
    if a == [] {
      assert a + [sep] + b == [sep] + b;
      assert ([sep] + b)[1..] == b;
      SplitWithoutSeparator(b, sep);
    } else {
      assert (a + [sep] + b)[1..] == a[1..] + [sep] + b;
      SplitAtOnlySeparator(a[1..], sep, b);
      assert a == [a[0]] + a[1..];
    }
  }

  lemma {:induction false} SplitWithoutSeparator(s: string, sep: char)
    requires sep !in s
    ensures Split(s, sep) == [s]
    decreases |s|
  {
    if s != [] {
      SplitWithoutSeparator(s[1..], sep);
      assert s == [s[0]] + s[1..];
    }
  }

  /** Round trip: the identifier the list shows is parsed back to its
      row's key, for every year and number. */
  lemma ParseFormatPid(db: UnicodeDb, year: int, number: int)
    requires NumeralsAreNotSpace(db)
    ensures ParsePid(db, FormatPid(year, number)) == Some((year, number))
  {
    var ys, ns := IntToString(year), ZFill(IntToString(number), 5);
    var pid := FormatPid(year, number);
    PidPartsHaveNoSlash(year, number);
    assert pid == ys + ['/'] + ns;
    SplitAtOnlySeparator(ys, '/', ns);
    ParseIntToString(db, year);
    ParseZFilled(db, number, 5);
    ParsePidOfParts(db, pid, ys, ns, year, number);
  }

  /** `ParsePid` once the split and both parses are known. */
  lemma ParsePidOfParts(db: UnicodeDb, pid: string, a: string, b: string, y: int, n: int)
    requires Split(pid, '/') == [a, b]
    requires ParseInt(db, a) == Some(y) && ParseInt(db, b) == Some(n)
    ensures ParsePid(db, pid) == Some((y, n))
  {
  }

  lemma PidPartsHaveNoSlash(year: int, number: int)
    ensures '/' !in IntToString(year) && '/' !in ZFill(IntToString(number), 5)
  {
    ZFillShape(number, 5);
  }

  /** A pid without exactly one '/' is rejected, whatever its parts. */
  lemma ParsePidNeedsOneSlash(db: UnicodeDb, pid: string)
    requires CountChar(pid, '/') != 1
    ensures ParsePid(db, pid) == None
  {
    SplitProperties(pid, '/');
  }

  /** For four-digit years and numbers below 100000 the identifiers sort,
      as strings, in (year, number) order, so `sorted(ids)` lists them in
      key order. */
  lemma PidOrder(y1: int, n1: int, y2: int, n2: int)
    requires 1000 <= y1 <= 9999 && 1000 <= y2 <= 9999
    requires 0 <= n1 < 100000 && 0 <= n2 < 100000
    ensures LexLess(FormatPid(y1, n1), FormatPid(y2, n2)) <==> y1 < y2 || (y1 == y2 && n1 < n2)
    ensures FormatPid(y1, n1) == FormatPid(y2, n2) <==> y1 == y2 && n1 == n2
  {
    assert Pow10(4) == 10000 by {
      assert Pow10(3) == 1000;
    }
    assert Pow10(5) == 100000;
    FourDigitYear(y1);
    FourDigitYear(y2);
    PaddedNumber(n1);
    PaddedNumber(n2);
    SeparatedOrder(PadDigits(y1, 4), PadDigits(y2, 4), '/', PadDigits(n1, 5), PadDigits(n2, 5));
    SeparatedEqual(PadDigits(y1, 4), PadDigits(y2, 4), '/', PadDigits(n1, 5), PadDigits(n2, 5));
    PadDigitsOrder(y1, y2, 4);
    PadDigitsOrder(n1, n2, 5);
    PadDigitsValue(y1, 4);
    PadDigitsValue(y2, 4);
    PadDigitsValue(n1, 5);
    PadDigitsValue(n2, 5);
  }

  lemma FourDigitYear(y: int)
    requires 1000 <= y <= 9999
    ensures IntToString(y) == PadDigits(y, 4)
  {
    assert Pow10(4) == 10000 by {
      assert Pow10(3) == 1000;
    }
    NatToStringLength(y, 3);
    ZeroPaddedIsPadDigits(y, 4);
    assert Repeat('0', 0) == "";
  }

  lemma PaddedNumber(n: int)
    requires 0 <= n < 100000
    ensures ZFill(IntToString(n), 5) == PadDigits(n, 5)
  {
    assert Pow10(5) == 100000 by {
      assert Pow10(3) == 1000;
    }
    ZeroPaddedIsPadDigits(n, 5);
    assert Repeat('0', 0) == "";
  }
}

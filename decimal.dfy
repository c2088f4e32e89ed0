/** Decimal digit strings: Python's `str(n)` on a non-negative integer,
    fixed-width zero padding (the `%Y`, `%m` and `%d` fields of
    `strftime`), and the value of a run of ASCII digits. */
module Decimal {
  import opened Text

  predicate IsDigit(c: char) {
    '0' <= c <= '9'
  }

  predicate AllDigits(s: string) {
    forall i :: 0 <= i < |s| ==> IsDigit(s[i])
  }

  function DigitValue(c: char): nat
    requires IsDigit(c)
  {
    (c as int) - ('0' as int)
  }

  function DigitChar(n: nat): (c: char)
    requires n < 10
    ensures IsDigit(c) && DigitValue(c) == n
  {
    ((('0' as int) + n) as char)
  }

  /** The value of a run of ASCII digits, most significant first; the
      empty run is 0. */
  function DigitsValue(s: string): nat
    requires AllDigits(s)
    decreases |s|
  {
    if s == [] then 0 else DigitsValue(s[..|s| - 1]) * 10 + DigitValue(s[|s| - 1])
  }

  function Pow10(n: nat): (r: nat)
    ensures r >= 1
  {
    if n == 0 then 1 else 10 * Pow10(n - 1)
  }

  /** `str(n)` for `n >= 0`. */
  function NatToString(n: nat): (s: string)
    ensures |s| >= 1 && AllDigits(s)
    decreases n
  {
    if n < 10 then [DigitChar(n)] else NatToString(n / 10) + [DigitChar(n % 10)]
  }

  /** `str(n)` reads back as `n`, and has no leading zero except for 0. */
  lemma {:induction false} NatToStringValue(n: nat)
    ensures DigitsValue(NatToString(n)) == n
    ensures NatToString(n)[0] == '0' ==> n == 0
    decreases n
  {
    if n >= 10 {
      var s := NatToString(n);
      NatToStringValue(n / 10);
      assert s[..|s| - 1] == NatToString(n / 10);
    }
  }

  /** `c * k` for a character and a count. */
  function Repeat(c: char, k: nat): (s: string)
    ensures |s| == k && forall i :: 0 <= i < k ==> s[i] == c
  {
    seq(k, i => c)
  }

  /** Leading zeros do not change the value of a digit run. */
  lemma {:induction false} LeadingZerosValue(k: nat, s: string)
    requires AllDigits(s)
    ensures AllDigits(Repeat('0', k) + s)
    ensures DigitsValue(Repeat('0', k) + s) == DigitsValue(s)
    decreases |s|
  {
    var t := Repeat('0', k) + s;
    if s == [] {
      assert t == Repeat('0', k);
      ZerosValue(k);
    } else {
      assert t[..|t| - 1] == Repeat('0', k) + s[..|s| - 1];
      LeadingZerosValue(k, s[..|s| - 1]);
    }
  }

  lemma {:induction false} ZerosValue(k: nat)
    ensures DigitsValue(Repeat('0', k)) == 0
    decreases k
  {
    if k > 0 {
      assert Repeat('0', k)[..k - 1] == Repeat('0', k - 1);
      ZerosValue(k - 1);
    }
  }

  /** `n` written with exactly `w` digits, zero padded on the left
      (`'%0wd' % n` for `n < 10**w`). */
  function PadDigits(n: nat, w: nat): (s: string)
    ensures |s| == w && AllDigits(s)
    decreases w
  {
    if w == 0 then "" else PadDigits(n / 10, w - 1) + [DigitChar(n % 10)]
  }

  /** Padding loses nothing when the number fits in the width. */
  lemma {:induction false} PadDigitsValue(n: nat, w: nat)
    requires n < Pow10(w)
    ensures DigitsValue(PadDigits(n, w)) == n
    decreases w
  {
    if w > 0 {
      var s := PadDigits(n, w);
      assert s[..|s| - 1] == PadDigits(n / 10, w - 1);
      PadDigitsValue(n / 10, w - 1);
    }
  }

  /** Between two numbers that fit in the width, code-point order of the
      padded strings is numeric order. */
  lemma {:induction false} PadDigitsOrder(a: nat, b: nat, w: nat)
    requires a < Pow10(w) && b < Pow10(w)
    ensures LexLess(PadDigits(a, w), PadDigits(b, w)) <==> a < b
    decreases w
  {
    if w == 0 {
      assert a == 0 && b == 0;
    } else {
      var pa, pb := PadDigits(a / 10, w - 1), PadDigits(b / 10, w - 1);
      var la, lb := [DigitChar(a % 10)], [DigitChar(b % 10)];
      if a / 10 == b / 10 {
        LexLessCommonPrefix(pa, la, lb);
        assert LexLess(la, lb) <==> la[0] < lb[0];
      } else {
        PadDigitsValue(a / 10, w - 1);
        PadDigitsValue(b / 10, w - 1);
        assert pa != pb;
        LexLessDecidedByPrefix(pa, pb, la, lb);
        PadDigitsOrder(a / 10, b / 10, w - 1);
      }
    }
  }

  /** A run of `k` digits is worth less than `10^k`. */
  lemma {:induction false} DigitsValueBound(s: string)
    requires AllDigits(s)
    ensures DigitsValue(s) < Pow10(|s|)
    decreases |s|
  {
    if s != [] {
      DigitsValueBound(s[..|s| - 1]);
    }
  }

  /** A run of digits that does not start with '0' is worth at least
      `10^(k-1)`. */
  lemma {:induction false} DigitsValueLowerBound(s: string)
    requires AllDigits(s) && |s| >= 1 && s[0] != '0'
    ensures DigitsValue(s) >= Pow10(|s| - 1)
    decreases |s|
  {
    if |s| > 1 {
      DigitsValueLowerBound(s[..|s| - 1]);
    }
  }

  /** Two digit runs of the same length with the same value are equal. */
  lemma {:induction false} DigitsValueInjective(s: string, t: string)
    requires AllDigits(s) && AllDigits(t) && |s| == |t|
    requires DigitsValue(s) == DigitsValue(t)
    ensures s == t
    decreases |s|
  {
    if s != [] {
      var i := |s| - 1;
      assert DigitValue(s[i]) == DigitsValue(s) % 10 == DigitValue(t[i]);
      DigitsValueInjective(s[..i], t[..i]);
      assert s == s[..i] + [s[i]] && t == t[..i] + [t[i]];
    }
  }

  /** `str(n)` has at most `w >= 1` characters exactly when `n < 10^w`. */
  lemma NatToStringLength(n: nat, w: nat)
    requires w >= 1
    ensures |NatToString(n)| <= w <==> n < Pow10(w)
  {
    var s := NatToString(n);
    NatToStringValue(n);
    DigitsValueBound(s);
    Pow10Monotone(|s|, w);
    if |s| > w {
      NatToStringValue(n);
      DigitsValueLowerBound(s);
      Pow10Monotone(w, |s| - 1);
    }
  }

  lemma {:induction false} Pow10Monotone(a: nat, b: nat)
    ensures a <= b ==> Pow10(a) <= Pow10(b)
    decreases b
  {
    if a < b {
      Pow10Monotone(a, b - 1);
    }
  }

  /** Left-padding `str(n)` with zeros to width `w` gives `PadDigits(n, w)`
      whenever `n` fits. */
  lemma ZeroPaddedIsPadDigits(n: nat, w: nat)
    requires w >= 1 && n < Pow10(w)
    ensures |NatToString(n)| <= w
    ensures Repeat('0', w - |NatToString(n)|) + NatToString(n) == PadDigits(n, w)
  {
    var s := NatToString(n);
    NatToStringLength(n, w);
    LeadingZerosValue(w - |s|, s);
    NatToStringValue(n);
    PadDigitsValue(n, w);
    DigitsValueInjective(Repeat('0', w - |s|) + s, PadDigits(n, w));
  }
}

/** Strings and sequences as Python treats them in this code base: the `in`
    operator on strings, code-point ordering (Python's `<` on `str`, and
    SQLite's BINARY collation on UTF-8 text, which orders the same way),
    `str.split` on a one-character separator, `''.join`, and `sorted`. */
module Text {

  // ---------------------------------------------------------------------
  // Substrings

  /** `p` occurs in `s` starting at index `i`. */
  predicate OccursAt(p: string, s: string, i: int) {
    0 <= i && i + |p| <= |s| && s[i..i + |p|] == p
  }

  /** Python's `p in s` for two strings. */
  predicate IsSubstring(p: string, s: string) {
    exists i :: 0 <= i <= |s| - |p| && OccursAt(p, s, i)
  }

  lemma {:induction false} OccursInContext(p: string, a: string, s: string, b: string, i: int)
    requires OccursAt(p, s, i)
    ensures OccursAt(p, a + s + b, |a| + i)
  {
    var t := a + s + b;
    assert t[|a|..|a| + |s|] == s;
    assert t[|a| + i..|a| + i + |p|] == t[|a|..|a| + |s|][i..i + |p|];
  }

  /** The empty string is in every string, also in the empty one. */
  lemma EmptyIsSubstring(s: string)
    ensures IsSubstring("", s)
  {
    assert OccursAt("", s, 0);
  }

  /** A string occurs in itself. */
  lemma SelfIsSubstring(s: string)
    ensures IsSubstring(s, s)
  {
    assert OccursAt(s, s, 0);
  }

  /** Substring occurrence survives any surrounding text. */
  lemma SubstringInContext(p: string, a: string, s: string, b: string)
    requires IsSubstring(p, s)
    ensures IsSubstring(p, a + s + b)
  {
    var i :| OccursAt(p, s, i);
    OccursInContext(p, a, s, b, i);
  }

  // ---------------------------------------------------------------------
  // Code-point (lexicographic) order

  /** Python's `a < b` on `str`: lexicographic on code points, a proper
      prefix being smaller. */
  predicate LexLess(a: string, b: string)
    decreases |a|
  {
    if |a| == 0 then |b| > 0
    else if |b| == 0 then false
    else if a[0] != b[0] then a[0] < b[0]
    else LexLess(a[1..], b[1..])
  }

  /** Python's `a <= b` on `str`, and SQLite's `a <= b` on TEXT. */
  predicate LexLe(a: string, b: string) {
    a == b || LexLess(a, b)
  }

  lemma {:induction false} LexLessIrreflexive(a: string)
    ensures !LexLess(a, a)
    decreases |a|
  {
    if |a| > 0 {
      LexLessIrreflexive(a[1..]);
    }
  }

  lemma {:induction false} LexLessTransitive(a: string, b: string, c: string)
    requires LexLess(a, b) && LexLess(b, c)
    ensures LexLess(a, c)
    decreases |a|
  {
    if |a| > 0 && a[0] == b[0] && b[0] == c[0] {
      LexLessTransitive(a[1..], b[1..], c[1..]);
    }
  }

  lemma {:induction false} LexLessConnected(a: string, b: string)
    requires a != b
    ensures LexLess(a, b) || LexLess(b, a)
    decreases |a|
  {
    if |a| > 0 && |b| > 0 && a[0] == b[0] {
      assert a == [a[0]] + a[1..] && b == [b[0]] + b[1..];
      LexLessConnected(a[1..], b[1..]);
    }
  }

  /** A common prefix does not change the order of two strings. */
  lemma {:induction false} LexLessCommonPrefix(p: string, a: string, b: string)
    ensures LexLess(p + a, p + b) <==> LexLess(a, b)
    decreases |p|
  {
    if |p| > 0 {
      assert (p + a)[0] == p[0] == (p + b)[0];
      assert (p + a)[1..] == p[1..] + a && (p + b)[1..] == p[1..] + b;
      assert LexLess(p + a, p + b) == LexLess((p + a)[1..], (p + b)[1..]);
      LexLessCommonPrefix(p[1..], a, b);
    } else {
      assert p + a == a && p + b == b;
    }
  }

  /** Between strings of equal length that differ, the order is decided by
      the first part alone, whatever follows. */
  lemma {:induction false} LexLessDecidedByPrefix(a: string, b: string, x: string, y: string)
    requires |a| == |b| && a != b
    ensures LexLess(a + x, b + y) <==> LexLess(a, b)
    decreases |a|
  {
    assert |a| > 0;
    assert a == [a[0]] + a[1..] && b == [b[0]] + b[1..];
    if a[0] == b[0] {
      assert a[1..] != b[1..];
      assert (a + x)[1..] == a[1..] + x && (b + y)[1..] == b[1..] + y;
      LexLessDecidedByPrefix(a[1..], b[1..], x, y);
    }
  }

  /** Two fields joined by a separator, the first of a fixed width,
      compare field by field ... */
  lemma SeparatedOrder(x: string, y: string, sep: char, s: string, t: string)
    requires |x| == |y|
    ensures LexLess(x + [sep] + s, y + [sep] + t) <==> LexLess(x, y) || (x == y && LexLess(s, t))
  {
    assert x + [sep] + s == x + ([sep] + s);
    assert y + [sep] + t == y + ([sep] + t);
    if x != y {
      LexLessDecidedByPrefix(x, y, [sep] + s, [sep] + t);
    } else {
      LexLessIrreflexive(x);
      LexLessCommonPrefix(x + [sep], s, t);
    }
  }

  /** ... and are equal field by field. */
  lemma SeparatedEqual(x: string, y: string, sep: char, s: string, t: string)
    requires |x| == |y|
    ensures x + [sep] + s == y + [sep] + t <==> x == y && s == t
  {
    if x + [sep] + s == y + [sep] + t {
      assert (x + [sep] + s)[..|x|] == x;
      assert (y + [sep] + t)[..|y|] == y;
      assert (x + [sep] + s)[|x| + 1..] == s;
      assert (y + [sep] + t)[|y| + 1..] == t;
    }
  }

  // ---------------------------------------------------------------------
  // Joining and splitting

  /** `''.join(parts)`. */
  function Concat(parts: seq<string>): string
    decreases |parts|
  {
    if parts == [] then "" else parts[0] + Concat(parts[1..])
  }

  lemma {:induction false} ConcatAppend(parts: seq<string>, last: string)
    ensures Concat(parts + [last]) == Concat(parts) + last
    decreases |parts|
  {
    if parts != [] {
      assert (parts + [last])[1..] == parts[1..] + [last];
      ConcatAppend(parts[1..], last);
    }
  }

  /** `sep.join(parts)`. */
  function Join(parts: seq<string>, sep: string): string
    decreases |parts|
  {
    if parts == [] then ""
    else if |parts| == 1 then parts[0]
    else parts[0] + sep + Join(parts[1..], sep)
  }

  lemma {:induction false} JoinAppend(parts: seq<string>, last: string, sep: string)
    ensures Join(parts + [last], sep) == if parts == [] then last else Join(parts, sep) + sep + last
    decreases |parts|
  {
    if |parts| > 1 {
      assert (parts + [last])[1..] == parts[1..] + [last];
      JoinAppend(parts[1..], last, sep);
    } else if |parts| == 1 {
      assert (parts + [last])[1..] == [last];
    }
  }

  /** Number of occurrences of `c` in `s`. */
  function CountChar(s: string, c: char): nat
    decreases |s|
  {
    if s == [] then 0 else (if s[0] == c then 1 else 0) + CountChar(s[1..], c)
  }

  /** `s.split(sep)` for a one-character separator: the pieces between
      separators, empty pieces included. */
  function Split(s: string, sep: char): seq<string>
    decreases |s|
  {
    if s == [] then [""]
    else
      var rest := Split(s[1..], sep);
      if s[0] == sep then [""] + rest
      else [[s[0]] + rest[0]] + rest[1..]
  }

  /** `str.split` yields one more piece than there are separators, no piece
      holds a separator, and joining the pieces with the separator gives
      the string back. */
  lemma {:induction false} SplitProperties(s: string, sep: char)
    ensures |Split(s, sep)| == CountChar(s, sep) + 1
    ensures forall k :: 0 <= k < |Split(s, sep)| ==> sep !in Split(s, sep)[k]
    ensures Join(Split(s, sep), [sep]) == s
    decreases |s|
  {
    if s != [] {
      SplitProperties(s[1..], sep);
      var rest := Split(s[1..], sep);
      if s[0] == sep {
        assert Split(s, sep) == [""] + rest;
        assert Join([""] + rest, [sep]) == "" + [sep] + Join(rest, [sep]);
        assert s == [s[0]] + s[1..];
      } else {
        var parts := Split(s, sep);
        assert parts == [[s[0]] + rest[0]] + rest[1..];
        if |rest| == 1 {
          assert Join(parts, [sep]) == [s[0]] + rest[0];
          assert s == [s[0]] + s[1..];
        } else {
          assert parts[1..] == rest[1..];
          assert Join(rest, [sep]) == rest[0] + [sep] + Join(rest[1..], [sep]);
          assert s == [s[0]] + s[1..];
        }
        forall k | 0 <= k < |parts|
          ensures sep !in parts[k]
        {
          if k == 0 {
            assert sep !in rest[0];
          } else {
            assert parts[k] == rest[k];
          }
        }
      }
    }
  }

  // ---------------------------------------------------------------------
  // Sorting (Python's `sorted`)

  /** `less` is a strict total order: irreflexive, transitive, connected. */
  ghost predicate StrictTotalOrder<T(!new)>(less: (T, T) -> bool) {
    && (forall a :: !less(a, a))
    && (forall a, b, c :: less(a, b) && less(b, c) ==> less(a, c))
    && (forall a, b :: a != b ==> less(a, b) || less(b, a))
  }

  /** Ascending order, duplicates allowed. */
  ghost predicate SortedBy<T>(s: seq<T>, less: (T, T) -> bool) {
    forall i, j :: 0 <= i < j < |s| ==> !less(s[j], s[i])
  }

  /** Strictly ascending order, so in particular no duplicates. */
  ghost predicate StrictlySortedBy<T>(s: seq<T>, less: (T, T) -> bool) {
    forall i, j :: 0 <= i < j < |s| ==> less(s[i], s[j])
  }

  lemma LexLessIsStrictTotalOrder()
    ensures StrictTotalOrder(LexLess)
  {
    forall a: string
      ensures !LexLess(a, a)
    {
      LexLessIrreflexive(a);
    }
    forall a: string, b: string, c: string | LexLess(a, b) && LexLess(b, c)
      ensures LexLess(a, c)
    {
      LexLessTransitive(a, b, c);
    }
    forall a: string, b: string | a != b
      ensures LexLess(a, b) || LexLess(b, a)
    {
      LexLessConnected(a, b);
    }
  }

  /** Insert `x` into an ascending sequence, after any equal elements. */
  function InsertSorted<T>(x: T, s: seq<T>, less: (T, T) -> bool): seq<T>
    decreases |s|
  {
    if s == [] then [x]
    else if less(x, s[0]) then [x] + s
    else [s[0]] + InsertSorted(x, s[1..], less)
  }

  lemma {:induction false} InsertSortedMultiset<T>(x: T, s: seq<T>, less: (T, T) -> bool)
    ensures multiset(InsertSorted(x, s, less)) == multiset(s) + multiset{x}
    ensures |InsertSorted(x, s, less)| == |s| + 1
    decreases |s|
  {
    if s != [] && !less(x, s[0]) {
      InsertSortedMultiset(x, s[1..], less);
      assert s == [s[0]] + s[1..];
    }
  }

  lemma {:induction false} InsertSortedElements<T>(x: T, s: seq<T>, less: (T, T) -> bool)
    ensures forall y :: y in InsertSorted(x, s, less) ==> y == x || y in s
    decreases |s|
  {
    if s != [] && !less(x, s[0]) {
      InsertSortedElements(x, s[1..], less);
    }
  }

  lemma {:induction false} InsertSortedKeepsOrder<T(!new)>(x: T, s: seq<T>, less: (T, T) -> bool)
    requires StrictTotalOrder(less)
    requires SortedBy(s, less)
    ensures SortedBy(InsertSorted(x, s, less), less)
    decreases |s|
  {
    if s != [] && !less(x, s[0]) {
      var t := InsertSorted(x, s[1..], less);
      InsertSortedKeepsOrder(x, s[1..], less);
      InsertSortedElements(x, s[1..], less);
      var r := [s[0]] + t;
      forall i, j | 0 <= i < j < |r|
        ensures !less(r[j], r[i])
      {
        if i > 0 {
          assert r[i] == t[i - 1] && r[j] == t[j - 1];
        } else {
          assert r[j] == t[j - 1];
          assert r[j] in t;
        }
      }
    }
  }

  lemma {:induction false} InsertSortedKeepsStrictOrder<T(!new)>(x: T, s: seq<T>, less: (T, T) -> bool)
    requires StrictTotalOrder(less)
    requires StrictlySortedBy(s, less) && x !in s
    ensures StrictlySortedBy(InsertSorted(x, s, less), less)
    decreases |s|
  {
    if s != [] && !less(x, s[0]) {
      var t := InsertSorted(x, s[1..], less);
      assert x != s[0];
      InsertSortedKeepsStrictOrder(x, s[1..], less);
      InsertSortedElements(x, s[1..], less);
      var r := [s[0]] + t;
      forall i, j | 0 <= i < j < |r|
        ensures less(r[i], r[j])
      {
        if i > 0 {
          assert r[i] == t[i - 1] && r[j] == t[j - 1];
        } else {
          assert r[j] == t[j - 1];
          assert r[j] in t;
        }
      }
    }
  }

  /** `sorted(xs)`: an ascending permutation of `xs`. */
  method SortSeq<T(!new)>(xs: seq<T>, less: (T, T) -> bool) returns (r: seq<T>)
    requires StrictTotalOrder(less)
    ensures SortedBy(r, less)
    ensures multiset(r) == multiset(xs)
  {
    r := [];
    var i := 0;
    while i < |xs|
      invariant 0 <= i <= |xs|
      invariant SortedBy(r, less)
      invariant multiset(r) == multiset(xs[..i])
    {
      InsertSortedKeepsOrder(xs[i], r, less);
      InsertSortedMultiset(xs[i], r, less);
      r := InsertSorted(xs[i], r, less);
      assert xs[..i + 1] == xs[..i] + [xs[i]];
      i := i + 1;
    }
    assert xs[..i] == xs;
  }

  /** `sorted(list(s))` for a set `s`: its elements, strictly ascending. */
  method SortSet<T(!new)>(s: set<T>, less: (T, T) -> bool) returns (r: seq<T>)
    requires StrictTotalOrder(less)
    ensures StrictlySortedBy(r, less)
    ensures forall x :: x in r <==> x in s
    ensures |r| == |s|
  {
    r := [];
    var rest := s;
    while rest != {}
      invariant rest <= s
      invariant StrictlySortedBy(r, less)
      invariant multiset(r) == multiset(s - rest)
      decreases rest
    {
      var x :| x in rest;
      assert x !in multiset(r);
      InsertSortedKeepsStrictOrder(x, r, less);
      InsertSortedMultiset(x, r, less);
      r := InsertSorted(x, r, less);
      assert s - (rest - {x}) == (s - rest) + {x};
      rest := rest - {x};
    }
    assert s - rest == s;
    assert |r| == |multiset(r)|;
    forall x
      ensures x in r <==> x in s
    {
      assert x in r <==> x in multiset(r);
      assert x in s <==> x in multiset(s);
    }
  }

  /** Some element of a non-empty set. */
  lemma ElementOf<T>(s: set<T>) returns (x: T)
    requires s != {}
    ensures x in s
  {
    x :| x in s;
  }

  lemma HeadIsMember<T>(s: seq<T>)
    ensures |s| > 0 ==> s[0] in s
  {
  }

  /** A set has only one strictly ascending listing. */
  lemma {:induction false} StrictlySortedUnique<T(!new)>(a: seq<T>, b: seq<T>, less: (T, T) -> bool)
    requires StrictTotalOrder(less)
    requires StrictlySortedBy(a, less) && StrictlySortedBy(b, less)
    requires forall x :: x in a <==> x in b
    ensures a == b
    decreases |a|
  {
    if a == [] {
      HeadIsMember(b);
    } else {
      assert b != [] by {
        assert a[0] in b;
      }
      assert a[0] == b[0] by {
        assert a[0] in b && b[0] in a;
        var i :| 0 <= i < |a| && a[i] == b[0];
        var j :| 0 <= j < |b| && b[j] == a[0];
        assert i == 0 || j == 0;
      }
      forall x
        ensures x in a[1..] <==> x in b[1..]
      {
        if x in a[1..] {
          var i :| 1 <= i < |a| && a[i] == x;
          assert less(a[0], a[i]);
          assert x != b[0];
          assert x in b;
        }
        if x in b[1..] {
          var j :| 1 <= j < |b| && b[j] == x;
          assert less(b[0], b[j]);
          assert x != a[0];
          assert x in a;
        }
      }
      StrictlySortedUnique(a[1..], b[1..], less);
      assert a == [a[0]] + a[1..] && b == [b[0]] + b[1..];
    }
  }

  /** `<` on integers, as a value. */
  predicate IntLess(a: int, b: int) {
    a < b
  }

  lemma IntLessIsStrictTotalOrder()
    ensures StrictTotalOrder(IntLess)
  {
  }

  /** The images under `f` of the elements of `xs` that satisfy `keep`, in
      order (a list comprehension with a filter). */
  function FilterMap<A, B>(xs: seq<A>, keep: A -> bool, f: A -> B): (r: seq<B>)
    ensures |r| <= |xs|
    decreases |xs|
  {
    if xs == [] then []
    else
      var prev := FilterMap(xs[..|xs| - 1], keep, f);
      if keep(xs[|xs| - 1]) then prev + [f(xs[|xs| - 1])] else prev
  }

  /** An element is in the result exactly when it is the image of a kept
      element. */
  lemma {:induction false} FilterMapMembership<A, B>(xs: seq<A>, keep: A -> bool, f: A -> B, b: B)
    ensures b in FilterMap(xs, keep, f) <==> exists i :: 0 <= i < |xs| && keep(xs[i]) && b == f(xs[i])
    decreases |xs|
  {
    if xs != [] {
      var init := xs[..|xs| - 1];
      FilterMapMembership(init, keep, f, b);
      assert forall i :: 0 <= i < |init| ==> init[i] == xs[i];
    }
  }

  /** The result lists the images of the kept elements in their order:
      `idx` holds the kept positions, ascending, and a position is in it
      exactly when its element is kept. */
  lemma {:induction false} FilterMapSelection<A, B>(xs: seq<A>, keep: A -> bool, f: A -> B) returns (idx: seq<int>)
    ensures |idx| == |FilterMap(xs, keep, f)|
    ensures forall k :: 0 <= k < |idx| ==> 0 <= idx[k] < |xs| && FilterMap(xs, keep, f)[k] == f(xs[idx[k]])
    ensures forall k, l :: 0 <= k < l < |idx| ==> idx[k] < idx[l]
    ensures forall i :: 0 <= i < |xs| ==> (i in idx <==> keep(xs[i]))
    decreases |xs|
  {
    if xs == [] {
      idx := [];
    } else {
      var init := xs[..|xs| - 1];
      var last := |xs| - 1;
      var prev := FilterMapSelection(init, keep, f);
      var r, p := FilterMap(xs, keep, f), FilterMap(init, keep, f);
      if keep(xs[last]) {
        assert r == p + [f(xs[last])];
        idx := prev + [last];
        forall k | 0 <= k < |idx|
          ensures 0 <= idx[k] < |xs| && r[k] == f(xs[idx[k]])
        {
          if k < |prev| {
            assert idx[k] == prev[k] && r[k] == p[k];
            assert init[prev[k]] == xs[prev[k]];
          }
        }
        forall k, l | 0 <= k < l < |idx|
          ensures idx[k] < idx[l]
        {
          if l == |prev| {
            assert idx[k] == prev[k] < |init|;
          } else {
            assert idx[k] == prev[k] && idx[l] == prev[l];
          }
        }
        forall i | 0 <= i < |xs|
          ensures i in idx <==> keep(xs[i])
        {
          assert i in idx <==> i in prev || i == last;
          if i < last {
            assert init[i] == xs[i];
          }
        }
      } else {
        assert r == p;
        idx := prev;
        forall k | 0 <= k < |idx|
          ensures 0 <= idx[k] < |xs| && r[k] == f(xs[idx[k]])
        {
          assert init[prev[k]] == xs[prev[k]];
        }
        forall i | 0 <= i < |xs|
          ensures i in idx <==> keep(xs[i])
        {
          if i < last {
            assert init[i] == xs[i];
          } else {
            assert i !in prev;
          }
        }
      }
    }
  }
}

/** The parts of Python's Unicode support the code relies on. The Unicode
    character database itself (decomposition mappings, general categories,
    combining classes, case mappings, the alphanumeric and whitespace
    classes) is not written out: it is a value of type `UnicodeDb` whose
    fields are left uninterpreted, and every result below holds for any
    such value, or for any value that satisfies the stated property of
    the database. */
module Unicode {
  import opened Text

  /** One code point's view of the Unicode character database. */
  datatype UnicodeDb = UnicodeDb(
    nfd: char -> string,        // canonical decomposition of one code point
    nfkd: char -> string,       // compatibility decomposition of one code point
    isMn: char -> bool,         // unicodedata.category(c) == 'Mn'
    isCombining: char -> bool,  // unicodedata.combining(c) != 0
    lower: char -> char,        // str.lower on one code point
    isAlnum: char -> bool,      // str.isalnum on one code point
    isSpace: char -> bool       // str.isspace, and the regex class \s
  )

  /** Apply a per-code-point expansion to every code point and concatenate. */
  function Expand(f: char -> string, s: string): string
    decreases |s|
  {
    if s == [] then "" else f(s[0]) + Expand(f, s[1..])
  }

  lemma {:induction false} ExpandAppend(f: char -> string, a: string, b: string)
    ensures Expand(f, a + b) == Expand(f, a) + Expand(f, b)
    decreases |a|
  {
    if a == [] {
      assert a + b == b;
    } else {
      assert (a + b)[1..] == a[1..] + b;
      ExpandAppend(f, a[1..], b);
    }
  }

  /** Expanding a string whose code points all decompose to themselves
      changes nothing. */
  lemma {:induction false} ExpandIdentity(f: char -> string, s: string)
    requires forall i :: 0 <= i < |s| ==> f(s[i]) == [s[i]]
    ensures Expand(f, s) == s
    decreases |s|
  {
    if s != [] {
      ExpandIdentity(f, s[1..]);
      assert s == [s[0]] + s[1..];
    }
  }

  /** The code points of `s` for which `drop` is false, in order. */
  function Remove(drop: char -> bool, s: string): (r: string)
    ensures forall i :: 0 <= i < |r| ==> !drop(r[i]) && r[i] in s
    ensures |r| <= |s|
    decreases |s|
  {
    if s == [] then ""
    else if drop(s[0]) then Remove(drop, s[1..])
    else [s[0]] + Remove(drop, s[1..])
  }

  lemma {:induction false} RemoveAppend(drop: char -> bool, a: string, b: string)
    ensures Remove(drop, a + b) == Remove(drop, a) + Remove(drop, b)
    decreases |a|
  {
    if a == [] {
      assert a + b == b;
    } else {
      assert (a + b)[1..] == a[1..] + b;
      RemoveAppend(drop, a[1..], b);
    }
  }

  /** Removing code points that do not occur changes nothing. */
  lemma {:induction false} RemoveNothing(drop: char -> bool, s: string)
    requires forall i :: 0 <= i < |s| ==> !drop(s[i])
    ensures Remove(drop, s) == s
    decreases |s|
  {
    if s != [] {
      RemoveNothing(drop, s[1..]);
      assert s == [s[0]] + s[1..];
    }
  }

  /** `unicodedata.normalize('NFD', s)`, code point by code point. */
  function Nfd(db: UnicodeDb, s: string): string {
    Expand(db.nfd, s)
  }

  /** `unicodedata.normalize('NFKD', s)`, code point by code point. */
  function Nfkd(db: UnicodeDb, s: string): string {
    Expand(db.nfkd, s)
  }

  /** `s.lower()`. */
  function Lower(db: UnicodeDb, s: string): (r: string)
    ensures |r| == |s|
  {
    seq(|s|, i requires 0 <= i < |s| => db.lower(s[i]))
  }

  lemma LowerAppend(db: UnicodeDb, a: string, b: string)
    ensures Lower(db, a + b) == Lower(db, a) + Lower(db, b)
  {
  }

  /** `remover_acentos(s)`: decompose, then drop every character of
      general category Mn (enhanced_protocol_scraper.py and app.py define
      the same function). The empty string maps to the empty string. */
  function RemoverAcentos(db: UnicodeDb, s: string): (r: string)
    ensures forall i :: 0 <= i < |r| ==> !db.isMn(r[i])
    ensures s == "" ==> r == ""
  {
    Remove(db.isMn, Nfd(db, s))
  }

  /** `Remove` keeps every code point it does not drop, as often as it
      occurs. */
  lemma {:induction false} RemoveCounts(drop: char -> bool, s: string, c: char)
    ensures multiset(Remove(drop, s))[c] == if drop(c) then 0 else multiset(s)[c]
    decreases |s|
  {
    if s != [] {
      RemoveCounts(drop, s[1..], c);
      assert s == [s[0]] + s[1..];
    }
  }

  /** `remover_acentos` drops exactly the Mn code points of the decomposed
      text: every other code point of it is kept, as often as it occurs. */
  lemma RemoverAcentosKeepsUnmarked(db: UnicodeDb, s: string, c: char)
    ensures multiset(RemoverAcentos(db, s))[c] == if db.isMn(c) then 0 else multiset(Nfd(db, s))[c]
  {
    RemoveCounts(db.isMn, Nfd(db, s), c);
  }

  /** Text whose code points decompose to themselves and are not marks
      comes back unchanged. */
  lemma RemoverAcentosKeepsPlain(db: UnicodeDb, s: string)
    requires forall i :: 0 <= i < |s| ==> db.nfd(s[i]) == [s[i]] && !db.isMn(s[i])
    ensures RemoverAcentos(db, s) == s
  {
    ExpandIdentity(db.nfd, s);
    RemoveNothing(db.isMn, s);
  }

  /** `remover_acentos(s).lower()`, the folding every keyword comparison
      of the code base goes through. */
  function Fold(db: UnicodeDb, s: string): string {
    Lower(db, RemoverAcentos(db, s))
  }

  /** Folding works piece by piece, so it commutes with concatenation. */
  lemma FoldAppend(db: UnicodeDb, a: string, b: string)
    ensures Fold(db, a + b) == Fold(db, a) + Fold(db, b)
  {
    ExpandAppend(db.nfd, a, b);
    RemoveAppend(db.isMn, Nfd(db, a), Nfd(db, b));
    LowerAppend(db, RemoverAcentos(db, a), RemoverAcentos(db, b));
  }

  /** `s.lstrip()`. */
  function StripLeft(db: UnicodeDb, s: string): (r: string)
    ensures r == "" || !db.isSpace(r[0])
    ensures |r| <= |s| && r == s[|s| - |r|..]
    ensures forall i :: 0 <= i < |s| - |r| ==> db.isSpace(s[i])
    decreases |s|
  {
    if s != [] && db.isSpace(s[0]) then StripLeft(db, s[1..]) else s
  }

  /** `s.rstrip()`. */
  function StripRight(db: UnicodeDb, s: string): (r: string)
    ensures r == "" || !db.isSpace(r[|r| - 1])
    ensures |r| <= |s| && r == s[..|r|]
    ensures forall i :: |r| <= i < |s| ==> db.isSpace(s[i])
    decreases |s|
  {
    if s != [] && db.isSpace(s[|s| - 1]) then StripRight(db, s[..|s| - 1]) else s
  }

  /** `s.strip()`: the result neither starts nor ends with white space,
      and it is a piece of `s`; `StripRemovesOnlySpace` adds that only
      white space is taken off. */
  function Strip(db: UnicodeDb, s: string): (r: string)
    ensures r == "" || (!db.isSpace(r[0]) && !db.isSpace(r[|r| - 1]))
    ensures IsSubstring(r, s)
  {
    var l := StripLeft(db, s);
    var r := StripRight(db, l);
    StripShape(db, s, l, r);
    r
  }

  /** `strip()` takes a run of white space off each end and nothing
      else. */
  lemma StripRemovesOnlySpace(db: UnicodeDb, s: string)
    ensures exists a :: StripsTo(db, s, a, Strip(db, s))
  {
    var l := StripLeft(db, s);
    var r := StripRight(db, l);
    StripShape(db, s, l, r);
    assert Strip(db, s) == r;
  }

  /** White space off the front, giving `l`, then off the back of `l`,
      giving `r`, is white space off both ends of `s`. */
  lemma StripShape(db: UnicodeDb, s: string, l: string, r: string)
    requires |l| <= |s| && l == s[|s| - |l|..] && forall i :: 0 <= i < |s| - |l| ==> db.isSpace(s[i])
    requires |r| <= |l| && r == l[..|r|] && forall i :: |r| <= i < |l| ==> db.isSpace(l[i])
    ensures StripsTo(db, s, |s| - |l|, r) && OccursAt(r, s, |s| - |l|)
  {
    var a := |s| - |l|;
    assert s[a..][..|r|] == s[a..a + |r|];
    forall i | a + |r| <= i < |s|
      ensures db.isSpace(s[i])
    {
      assert s[i] == l[i - a];
    }
  }

  /** `r` is `s` from position `a` on, with only white space before `a`
      and after `r`. */
  ghost predicate StripsTo(db: UnicodeDb, s: string, a: int, r: string) {
    0 <= a && a + |r| <= |s| && s[a..a + |r|] == r
    && (forall i :: 0 <= i < a ==> db.isSpace(s[i]))
    && (forall i :: a + |r| <= i < |s| ==> db.isSpace(s[i]))
  }

  /** A string that neither starts nor ends with white space is its own
      `strip()`. */
  lemma StripNothing(db: UnicodeDb, s: string)
    requires s != [] && !db.isSpace(s[0]) && !db.isSpace(s[|s| - 1])
    ensures Strip(db, s) == s
  {
  }

  /** `s.strip()` is empty exactly when every code point of `s` is white
      space (`if k.strip()` in app.py keeps the other keywords). */
  lemma {:induction false} StripEmptyIffAllSpace(db: UnicodeDb, s: string)
    ensures Strip(db, s) == "" <==> forall i :: 0 <= i < |s| ==> db.isSpace(s[i])
    decreases |s|
  {
    if s != [] && db.isSpace(s[0]) {
      StripEmptyIffAllSpace(db, s[1..]);
      assert forall i :: 1 <= i < |s| ==> s[i] == s[1..][i - 1];
    } else if s != [] {
      assert StripLeft(db, s) == s;
      assert StripRight(db, s) != "" by {
        var r := StripRight(db, s);
        if r == "" {
          StripRightEmptyIffAllSpace(db, s);
        }
      }
    }
  }

  lemma {:induction false} StripRightEmptyIffAllSpace(db: UnicodeDb, s: string)
    ensures StripRight(db, s) == "" <==> forall i :: 0 <= i < |s| ==> db.isSpace(s[i])
    decreases |s|
  {
    if s != [] && db.isSpace(s[|s| - 1]) {
      StripRightEmptyIffAllSpace(db, s[..|s| - 1]);
      assert forall i :: 0 <= i < |s| - 1 ==> s[i] == s[..|s| - 1][i];
    }
  }

  /** `s.isalnum()`: non-empty and every code point alphanumeric. */
  predicate IsAlnumStr(db: UnicodeDb, s: string) {
    |s| > 0 && forall i :: 0 <= i < |s| ==> db.isAlnum(s[i])
  }

  /** The regex class \w: Python counts a code point as a word character
      when it is alphanumeric or the underscore. */
  predicate IsWordChar(db: UnicodeDb, c: char) {
    db.isAlnum(c) || c == '_'
  }

  /** The database's lower-casing is idempotent: a lower-cased code point
      lower-cases to itself. */
  ghost predicate LowerIdempotent(db: UnicodeDb) {
    forall c, d {:trigger db.lower(c), db.lower(d)} :: d == db.lower(c) ==> db.lower(d) == d
  }

  /** The database's lower-casing never turns a non-combining code point
      into a combining one. */
  ghost predicate LowerKeepsNonCombining(db: UnicodeDb) {
    forall c {:trigger db.lower(c)} :: !db.isCombining(c) ==> !db.isCombining(db.lower(c))
  }
}

/** Keyword lists and their families (`get_lista_normalizada`, in
    enhanced_protocol_scraper.py and app.py) and the keyword
    test the delta report applies (`contains_any_keyword`). */
module Keywords {
  import opened Text
  import opened Unicode

  /** The `familias` object of the configuration, in its key order: each
      family's key and its list of variants. */
  type Families = seq<(string, seq<string>)>

  /** `set(remover_acentos(va).lower() for va in variantes)`. */
  function NormSet(db: UnicodeDb, vs: seq<string>): set<string> {
    set i | 0 <= i < |vs| :: Fold(db, vs[i])
  }

  /** The inner loop over a family's variants, each entry set to `family`. */
  function AddVariants(m: map<string, set<string>>, db: UnicodeDb, vs: seq<string>, family: set<string>): map<string, set<string>>
    decreases |vs|
  {
    if vs == [] then m else AddVariants(m, db, vs[..|vs| - 1], family)[Fold(db, vs[|vs| - 1]) := family]
  }

  /** One family's entries: every folded variant maps to the folded family. */
  function AddFamily(m: map<string, set<string>>, db: UnicodeDb, vs: seq<string>): map<string, set<string>> {
    AddVariants(m, db, vs, NormSet(db, vs))
  }

  lemma NormSetSnoc(db: UnicodeDb, vs: seq<string>)
    requires vs != []
    ensures NormSet(db, vs) == NormSet(db, vs[..|vs| - 1]) + {Fold(db, vs[|vs| - 1])}
  {
    var init := vs[..|vs| - 1];
    assert forall k :: 0 <= k < |init| ==> init[k] == vs[k];
    forall w | w in NormSet(db, vs)
      ensures w in NormSet(db, init) + {Fold(db, vs[|vs| - 1])}
    {
      var k :| 0 <= k < |vs| && w == Fold(db, vs[k]);
      if k < |init| {
        assert w == Fold(db, init[k]);
      }
    }
  }

  /** After the inner loop the folded variants map to `family` and every
      other entry is as before. */
  lemma {:induction false} AddVariantsLookup(m: map<string, set<string>>, db: UnicodeDb, vs: seq<string>, family: set<string>, k: string)
    ensures k in AddVariants(m, db, vs, family) <==> k in m || k in NormSet(db, vs)
    ensures k in AddVariants(m, db, vs, family) ==>
      AddVariants(m, db, vs, family)[k] == if k in NormSet(db, vs) then family else m[k]
    decreases |vs|
  {
    if vs != [] {
      AddVariantsLookup(m, db, vs[..|vs| - 1], family, k);
      NormSetSnoc(db, vs);
    }
  }

  /** `mapa_familias` after the loops over all families: a later family
      overwrites the entries of an earlier one. */
  function FamilyMap(db: UnicodeDb, fams: Families): map<string, set<string>>
    decreases |fams|
  {
    if fams == [] then map[] else AddFamily(FamilyMap(db, fams[..|fams| - 1]), db, fams[|fams| - 1].1)
  }

  /** What one name adds to the list: its whole family when its folded form is
      a family entry, otherwise the folded form alone. */
  function Contribution(mapa: map<string, set<string>>, k: string): set<string> {
    if k in mapa then mapa[k] else {k}
  }

  /** The set `lista_normalizada` after the loop over the names. */
  function ExpandedKeywords(db: UnicodeDb, names: seq<string>, fams: Families): set<string>
    decreases |names|
  {
    if names == [] then {}
    else ExpandedKeywords(db, names[..|names| - 1], fams) + Contribution(FamilyMap(db, fams), Fold(db, names[|names| - 1]))
  }

  /** The two loops that fill `mapa_familias`. */
  method BuildFamilyMap(db: UnicodeDb, fams: Families) returns (mapa: map<string, set<string>>)
    ensures mapa == FamilyMap(db, fams)
  {
    mapa := map[];
    var i := 0;
    while i < |fams|
      invariant 0 <= i <= |fams|
      invariant mapa == FamilyMap(db, fams[..i])
    {
      assert fams[..i + 1][..i] == fams[..i];
      var variantes := fams[i].1;
      var family := NormSet(db, variantes);
      ghost var before := mapa;
      var j := 0;
      while j < |variantes|
        invariant 0 <= j <= |variantes|
        invariant mapa == AddVariants(before, db, variantes[..j], family)
      {
        assert variantes[..j + 1][..j] == variantes[..j];
        mapa := mapa[Fold(db, variantes[j]) := family];
        j := j + 1;
      }
      assert variantes[..j] == variantes;
      i := i + 1;
    }
    assert fams[..i] == fams;
  }

  /** `get_lista_normalizada(lista_original, familias)`, as the set it
      converts to a list. */
  method GetListaNormalizada(db: UnicodeDb, names: seq<string>, fams: Families) returns (r: set<string>)
    ensures r == ExpandedKeywords(db, names, fams)
  {
    var mapa := BuildFamilyMap(db, fams);
    r := {};
    var i := 0;
    while i < |names|
      invariant 0 <= i <= |names|
      invariant r == ExpandedKeywords(db, names[..i], fams)
    {
      assert names[..i + 1][..i] == names[..i];
      var nome := Fold(db, names[i]);
      if nome in mapa {
        r := r + mapa[nome];
      } else {
        r := r + {nome};
      }
      i := i + 1;
    }
    assert names[..i] == names;
  }

  /** A folded string is a family entry exactly when it is the folded form of
      a variant of some family ... */
  lemma {:induction false} FamilyMapDomain(db: UnicodeDb, fams: Families, k: string)
    ensures k in FamilyMap(db, fams) <==> exists i :: 0 <= i < |fams| && k in NormSet(db, fams[i].1)
    decreases |fams|
  {
    if fams != [] {
      var init := fams[..|fams| - 1];
      var last := |fams| - 1;
      FamilyMapDomain(db, init, k);
      AddVariantsLookup(FamilyMap(db, init), db, fams[last].1, NormSet(db, fams[last].1), k);
      assert forall i :: 0 <= i < |init| ==> init[i] == fams[i];
    }
  }

  /** Family `i` lists `k`, and no later family does. */
  predicate LastFamilyListing(db: UnicodeDb, fams: Families, k: string, i: int) {
    0 <= i < |fams| && k in NormSet(db, fams[i].1)
    && forall j :: i < j < |fams| ==> k !in NormSet(db, fams[j].1)
  }

  /** ... and the entry is then the folded family of the last family
      listing it. */
  lemma {:induction false} FamilyMapLookup(db: UnicodeDb, fams: Families, k: string) returns (i: int)
    requires k in FamilyMap(db, fams)
    ensures LastFamilyListing(db, fams, k, i)
    ensures FamilyMap(db, fams)[k] == NormSet(db, fams[i].1)
    decreases |fams|
  {
    var init := fams[..|fams| - 1];
    var last := |fams| - 1;
    var lastSet := NormSet(db, fams[last].1);
    AddVariantsLookup(FamilyMap(db, init), db, fams[last].1, lastSet, k);
    if k in lastSet {
      i := last;
    } else {
      i := FamilyMapLookup(db, init, k);
      assert init[i] == fams[i];
      assert forall j :: i < j < |init| ==> init[j] == fams[j];
    }
  }

  /** A family entry belongs to its own family. */
  lemma EntryInOwnFamily(db: UnicodeDb, fams: Families, k: string)
    requires k in FamilyMap(db, fams)
    ensures k in FamilyMap(db, fams)[k]
  {
    var i := FamilyMapLookup(db, fams, k);
  }

  /** A keyword is in the expanded list exactly when some name contributes
      it. */
  lemma {:induction false} ExpandedKeywordsMembership(db: UnicodeDb, names: seq<string>, fams: Families, w: string)
    ensures w in ExpandedKeywords(db, names, fams) <==>
      exists i :: 0 <= i < |names| && w in Contribution(FamilyMap(db, fams), Fold(db, names[i]))
    decreases |names|
  {
    if names != [] {
      var init := names[..|names| - 1];
      ExpandedKeywordsMembership(db, init, fams, w);
      assert forall i :: 0 <= i < |init| ==> init[i] == names[i];
    }
  }

  /** Every name's own folded form is in the list, and every folded variant
      of a family one of the names belongs to comes along with it. */
  lemma NameAndFamilyIncluded(db: UnicodeDb, names: seq<string>, fams: Families, i: int)
    requires 0 <= i < |names|
    ensures Fold(db, names[i]) in ExpandedKeywords(db, names, fams)
    ensures Fold(db, names[i]) in FamilyMap(db, fams) ==>
      FamilyMap(db, fams)[Fold(db, names[i])] <= ExpandedKeywords(db, names, fams)
  {
    var k := Fold(db, names[i]);
    var mapa := FamilyMap(db, fams);
    if k in mapa {
      EntryInOwnFamily(db, fams, k);
    }
    ExpandedKeywordsMembership(db, names, fams, k);
    forall w | w in Contribution(mapa, k)
      ensures w in ExpandedKeywords(db, names, fams)
    {
      ExpandedKeywordsMembership(db, names, fams, w);
    }
  }

  /** A keyword that is no name's folded form is there only because it is
      in the family of one of the names. */
  lemma ExpandedKeywordOrigin(db: UnicodeDb, names: seq<string>, fams: Families, w: string)
    requires w in ExpandedKeywords(db, names, fams)
    ensures (exists i :: 0 <= i < |names| && w == Fold(db, names[i]))
      || exists i :: 0 <= i < |names| && Fold(db, names[i]) in FamilyMap(db, fams)
           && w in FamilyMap(db, fams)[Fold(db, names[i])]
  {
    ExpandedKeywordsMembership(db, names, fams, w);
  }

  /** `contains_any_keyword(block, keywords)`: false for the empty block,
      otherwise whether some keyword occurs in the folded block. */
  predicate ContainsAnyKeyword(db: UnicodeDb, block: string, keywords: set<string>) {
    block != "" && exists w :: w in keywords && IsSubstring(w, Fold(db, block))
  }

  /** The empty block never matches, not even the empty keyword. */
  lemma EmptyBlockNeverMatches(db: UnicodeDb, keywords: set<string>)
    ensures !ContainsAnyKeyword(db, "", keywords)
  {
  }

  /** With no name configured the list is empty and so nothing matches. */
  lemma NoNamesMatchNothing(db: UnicodeDb, fams: Families, block: string)
    ensures ExpandedKeywords(db, [], fams) == {}
    ensures !ContainsAnyKeyword(db, block, ExpandedKeywords(db, [], fams))
  {
  }

  /** A block that mentions a piece of text whose folded form is a keyword
      matches, whatever surrounds it: folding works piece by piece. */
  lemma MentionMatches(db: UnicodeDb, before: string, x: string, after: string, keywords: set<string>)
    requires Fold(db, x) in keywords
    requires before + x + after != ""
    ensures ContainsAnyKeyword(db, before + x + after, keywords)
  {
    FoldAppend(db, before + x, after);
    FoldAppend(db, before, x);
    SelfIsSubstring(Fold(db, x));
    SubstringInContext(Fold(db, x), Fold(db, before), Fold(db, x), Fold(db, after));
  }

  /** Hence a block mentioning any configured name matches the expanded list. */
  lemma MentionOfNameMatches(db: UnicodeDb, names: seq<string>, fams: Families, i: int, before: string, after: string)
    requires 0 <= i < |names|
    requires before + names[i] + after != ""
    ensures ContainsAnyKeyword(db, before + names[i] + after, ExpandedKeywords(db, names, fams))
  {
    NameAndFamilyIncluded(db, names, fams, i);
    MentionMatches(db, before, names[i], after, ExpandedKeywords(db, names, fams));
  }
}

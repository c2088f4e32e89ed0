/** The archival pass of archive_protocols.py: `normalize_text` and
    `archive_protocols`, which reads every row,
    selects the open rows whose normalised content contains the rule
    phrase, and then marks the selected rows archived. The table is the
    `Store` module's; connection handling and messages are not modelled. */
module Archive {
  import opened Text
  import opened Unicode
  import opened Store
  import Scraper

  /** The phrase the pass looks for in normalised content. */
  const RulePhrase: string := "conforme andamento arquiva-se o protocolo"

  /** The chain of `normalize_text` after its empty-input test: NFKD, drop
      combining characters, lower-case, delete every ',' and then every
      '.'. */
  function Normalized(db: UnicodeDb, s: string): string {
    Remove(IsPeriod, Remove(IsComma, Lower(db, Remove(db.isCombining, Nfkd(db, s)))))
  }

  predicate IsComma(c: char) { c == ',' }
  predicate IsPeriod(c: char) { c == '.' }

  /** `normalize_text(text)`: "" for empty input, and never a ',' or a
      '.' in the result. */
  function NormalizeText(db: UnicodeDb, s: string): (r: string)
    ensures s == "" ==> r == ""
    ensures forall i :: 0 <= i < |r| ==> r[i] != ',' && r[i] != '.'
  {
    if s == "" then "" else Normalized(db, s)
  }

  /** The result holds no combining character when lower-casing never
      produces one, and it is already lower case when lower-casing is
      idempotent. */
  lemma NormalizedIsFolded(db: UnicodeDb, s: string)
    ensures LowerKeepsNonCombining(db) ==> forall i :: 0 <= i < |NormalizeText(db, s)| ==> !db.isCombining(NormalizeText(db, s)[i])
    ensures LowerIdempotent(db) ==> Lower(db, NormalizeText(db, s)) == NormalizeText(db, s)
  {
    var r := NormalizeText(db, s);
    var x := Remove(db.isCombining, Nfkd(db, s));
    var l := Lower(db, x);
    assert forall i :: 0 <= i < |r| ==> r[i] in l by {
      forall i | 0 <= i < |r|
        ensures r[i] in l
      {
        assert r[i] in Remove(IsComma, l);
      }
    }
    forall i | 0 <= i < |r|
      ensures exists j :: 0 <= j < |x| && r[i] == db.lower(x[j]) && !db.isCombining(x[j])
    {
      var j :| 0 <= j < |l| && l[j] == r[i];
    }
    if LowerIdempotent(db) {
      forall i | 0 <= i < |r|
        ensures Lower(db, r)[i] == r[i]
      {
        var j :| 0 <= j < |x| && r[i] == db.lower(x[j]) && !db.isCombining(x[j]);
        assert db.lower(db.lower(x[j])) == db.lower(x[j]);
      }
    }
  }

  /** The selection test of the row loop: non-empty content whose
      normalised form contains the rule phrase, in a row that is not
      archived yet. */
  predicate Selected(db: UnicodeDb, row: Row) {
    row.content != "" && IsSubstring(RulePhrase, NormalizeText(db, row.content)) && row.arquivado != Yes
  }

  /** The keys the row loop collects in `protocols_to_update`. */
  function SelectedKeys(db: UnicodeDb, rows: map<Key, Row>): (r: set<Key>)
    ensures forall k :: k in r <==> k in rows && Selected(db, rows[k])
  {
    set k | k in rows && Selected(db, rows[k])
  }

  /** The table after `UPDATE ... SET Arquivado = 'yes'` on the keys `ks`. */
  function Marked(rows: map<Key, Row>, ks: set<Key>): map<Key, Row> {
    map k | k in rows :: if k in ks then rows[k].(arquivado := Yes) else rows[k]
  }

  /** Marking one more key is one more `UPDATE` of a single row. */
  lemma MarkOne(rows: map<Key, Row>, ks: set<Key>, k: Key)
    requires k in rows
    ensures k in Marked(rows, ks)
    ensures Marked(rows, ks)[k := Marked(rows, ks)[k].(arquivado := Yes)] == Marked(rows, ks + {k})
  {
    var m := Marked(rows, ks);
    var m2 := Marked(rows, ks + {k});
    var u := m[k := m[k].(arquivado := Yes)];
    assert u.Keys == m2.Keys;
    forall j | j in u
      ensures u[j] == m2[j]
    {
    }
  }

  /** The table after one pass. */
  function ArchivedTable(db: UnicodeDb, rows: map<Key, Row>): map<Key, Row> {
    Marked(rows, SelectedKeys(db, rows))
  }

  /** The row loop: one look at every row, collecting the selected keys. */
  method SelectRows(db: UnicodeDb, rows: map<Key, Row>) returns (toUpdate: set<Key>)
    ensures toUpdate == SelectedKeys(db, rows)
  {
    toUpdate := {};
    var remaining := rows.Keys;
    while remaining != {}
      invariant remaining <= rows.Keys
      invariant forall k :: k in toUpdate <==> k in rows && k !in remaining && Selected(db, rows[k])
      decreases remaining
    {
      ghost var some := ElementOf(remaining);
      var k :| k in remaining;
      var content := rows[k].content;
      if content != "" {
        var normalized := NormalizeText(db, content);
        if IsSubstring(RulePhrase, normalized) && rows[k].arquivado != Yes {
          toUpdate := toUpdate + {k};
        }
      }
      remaining := remaining - {k};
    }
    assert forall k :: k in toUpdate <==> k in SelectedKeys(db, rows);
  }

  /** The `executemany` of the update: `UPDATE ... SET Arquivado = 'yes'`
      once per selected key. */
  method MarkArchived(store: ProtocolStore, ks: set<Key>)
    requires ks <= store.rows.Keys
    modifies store
    ensures store.rows == Marked(old(store.rows), ks)
  {
    ghost var before := store.rows;
    ghost var done: set<Key> := {};
    var pending := ks;
    while pending != {}
      invariant pending <= ks
      invariant done == ks - pending
      invariant store.rows == Marked(before, done)
      decreases pending
    {
      ghost var some := ElementOf(pending);
      var k :| k in pending;
      MarkOne(before, done, k);
      store.rows := store.rows[k := store.rows[k].(arquivado := Yes)];
      done := done + {k};
      pending := pending - {k};
    }
    assert done == ks;
  }

  /** `archive_protocols`: select, then mark every selected row archived.
      `updated` is the set whose size is the reported `updated_count`. */
  method ArchiveProtocols(db: UnicodeDb, store: ProtocolStore) returns (updated: set<Key>)
    modifies store
    ensures updated == SelectedKeys(db, old(store.rows))
    ensures store.rows == ArchivedTable(db, old(store.rows))
  {
    updated := SelectRows(db, store.rows);
    MarkArchived(store, updated);
  }

  /** What one pass does to each row: the keys stay, content and
      `Last_update` never change, a row ends archived exactly when it was
      archived already or its content matches the rule (so the pass never
      un-archives), and only selected rows change. */
  lemma ArchiveEffect(db: UnicodeDb, rows: map<Key, Row>)
    ensures ArchivedTable(db, rows).Keys == rows.Keys
    ensures forall k :: k in rows ==>
      ArchivedTable(db, rows)[k].content == rows[k].content
      && ArchivedTable(db, rows)[k].lastUpdate == rows[k].lastUpdate
    ensures forall k :: k in rows ==>
      (ArchivedTable(db, rows)[k].arquivado == Yes <==>
        rows[k].arquivado == Yes || (rows[k].content != "" && IsSubstring(RulePhrase, NormalizeText(db, rows[k].content))))
    ensures forall k :: k in rows ==> (ArchivedTable(db, rows)[k] != rows[k] <==> Selected(db, rows[k]))
  {
  }

  /** Running the pass twice changes nothing more: the second run selects
      no row. */
  lemma ArchiveIdempotent(db: UnicodeDb, rows: map<Key, Row>)
    ensures SelectedKeys(db, ArchivedTable(db, rows)) == {}
    ensures ArchivedTable(db, ArchivedTable(db, rows)) == ArchivedTable(db, rows)
  {
    var t := ArchivedTable(db, rows);
    ArchiveEffect(db, rows);
    forall k | k in t
      ensures !Selected(db, t[k])
    {
      if k in SelectedKeys(db, rows) {
        assert t[k].arquivado == Yes;
      } else {
        assert t[k] == rows[k];
      }
    }
    assert forall k :: k !in SelectedKeys(db, t);
  }

  /** The database treats the code points of the scraper's phrase as plain
      ASCII: each decomposes to itself, none is combining, and
      lower-casing only turns the leading 'C' into 'c'. */
  ghost predicate PhraseIsAscii(db: UnicodeDb) {
    db.lower('C') == 'c'
    && forall c :: c in Scraper.ArchivedPhrase ==>
         db.nfkd(c) == [c] && !db.isCombining(c) && (c != 'C' ==> db.lower(c) == c)
  }

  lemma NormalizedAppend(db: UnicodeDb, a: string, b: string)
    ensures Normalized(db, a + b) == Normalized(db, a) + Normalized(db, b)
  {
    var nf, nc := IsPeriod, IsComma;
    ExpandAppend(db.nfkd, a, b);
    RemoveAppend(db.isCombining, Nfkd(db, a), Nfkd(db, b));
    var xa, xb := Remove(db.isCombining, Nfkd(db, a)), Remove(db.isCombining, Nfkd(db, b));
    LowerAppend(db, xa, xb);
    RemoveAppend(nc, Lower(db, xa), Lower(db, xb));
    RemoveAppend(nf, Remove(nc, Lower(db, xa)), Remove(nc, Lower(db, xb)));
  }

  /** The two phrases side by side: the scraper's is the rule phrase with a
      capital first letter and a final period. */
  lemma PhrasesAlign()
    ensures |Scraper.ArchivedPhrase| == |RulePhrase| + 1
    ensures Scraper.ArchivedPhrase[0] == 'C' && RulePhrase[0] == 'c' && Scraper.ArchivedPhrase[|RulePhrase|] == '.'
    ensures forall i :: 1 <= i < |RulePhrase| ==> Scraper.ArchivedPhrase[i] == RulePhrase[i] != 'C'
    ensures forall i :: 0 <= i < |RulePhrase| ==> RulePhrase[i] != ',' && RulePhrase[i] != '.'
  {
  }

  /** Lower-casing the scraper's phrase gives the rule phrase and a period. */
  lemma LowerPhrase(db: UnicodeDb)
    requires PhraseIsAscii(db)
    ensures Lower(db, Scraper.ArchivedPhrase) == RulePhrase + "."
  {
    var p, lowered := Scraper.ArchivedPhrase, RulePhrase + ".";
    PhrasesAlign();
    forall i | 0 <= i < |p|
      ensures Lower(db, p)[i] == lowered[i]
    {
      assert p[i] in p;
      if i == 0 {
      } else if i < |RulePhrase| {
        assert p[i] == RulePhrase[i] != 'C';
      } else {
        assert p[i] == '.';
      }
    }
  }

  /** Decomposing and dropping combining characters leave the scraper's
      phrase as it is. */
  lemma PhraseIsPlain(db: UnicodeDb)
    requires PhraseIsAscii(db)
    ensures Remove(db.isCombining, Nfkd(db, Scraper.ArchivedPhrase)) == Scraper.ArchivedPhrase
  {
    var p := Scraper.ArchivedPhrase;
    assert forall i :: 0 <= i < |p| ==> p[i] in p;
    ExpandIdentity(db.nfkd, p);
    RemoveNothing(db.isCombining, p);
  }

  /** Deleting the commas and then the periods of the lower-cased phrase
      leaves the rule phrase. */
  lemma PunctuationOfPhrase()
    ensures Remove(IsPeriod, Remove(IsComma, RulePhrase + ".")) == RulePhrase
  {
    PhrasesAlign();
    RemoveNothing(IsComma, RulePhrase + ".");
    RemoveAppend(IsPeriod, RulePhrase, ".");
    RemoveNothing(IsPeriod, RulePhrase);
  }

  /** The scraper's phrase normalises to the rule phrase. */
  lemma PhraseNormalizesToRule(db: UnicodeDb)
    requires PhraseIsAscii(db)
    ensures Normalized(db, Scraper.ArchivedPhrase) == RulePhrase
  {
    PhraseIsPlain(db);
    LowerPhrase(db);
    PunctuationOfPhrase();
  }

  /** Normalising text that contains `p` gives text that contains the
      normal form of `p`. */
  lemma NormalizedOccurrence(db: UnicodeDb, p: string, content: string)
    requires IsSubstring(p, content)
    ensures IsSubstring(Normalized(db, p), Normalized(db, content))
  {
    var i :| 0 <= i <= |content| - |p| && OccursAt(p, content, i);
    var a, b := content[..i], content[i + |p|..];
    assert content == a + p + b;
    NormalizedAppend(db, a + p, b);
    NormalizedAppend(db, a, p);
    var q := Normalized(db, p);
    SelfIsSubstring(q);
    SubstringInContext(q, Normalized(db, a), q, Normalized(db, b));
  }

  /** Content the scraper marks archived by its exact, case-sensitive phrase
      also satisfies the rule of the archival pass. */
  lemma ScraperPhraseMeetsRule(db: UnicodeDb, content: string)
    requires PhraseIsAscii(db)
    requires IsSubstring(Scraper.ArchivedPhrase, content)
    ensures content != "" && IsSubstring(RulePhrase, NormalizeText(db, content))
  {
    var p := Scraper.ArchivedPhrase;
    assert |p| > 0;
    PhraseNormalizesToRule(db);
    NormalizedOccurrence(db, p, content);
  }
}

/** The read side of app.py: the keyword highlighter (`highlight`), the
    pid lookup of `get_single_protocol_content`, the row loop and the
    totals of `api_protocols`, the export file of `exportar` and the
    keyword list built at start-up. The database is the table of the
    `Store` module; query results are given as sequences. */
module App {
  import opened Text
  import opened Wrappers
  import opened Decimal
  import opened Unicode
  import opened Pids
  import opened Keywords
  import opened Store

  // ---------------------------------------------------------------------
  // Tokens of `\w+|[^\w\s]|\s+`

  /** Length of the longest prefix of `s` whose code points all satisfy `p`. */
  function RunLength(p: char -> bool, s: string): (n: nat)
    ensures n <= |s|
    ensures forall i :: 0 <= i < n ==> p(s[i])
    ensures n < |s| ==> !p(s[n])
    decreases |s|
  {
    if s == [] || !p(s[0]) then 0 else 1 + RunLength(p, s[1..])
  }

  /** Length of the token `re.findall` takes at the start of a non-empty
      string: a run of word characters, else one character that is neither
      a word character nor a space, else a run of spaces. Every code point
      falls under one of the three alternatives, so nothing is skipped. */
  function TokenLength(db: UnicodeDb, s: string): (n: nat)
    requires s != []
    ensures 1 <= n <= |s|
  {
    if IsWordChar(db, s[0]) then RunLength(c => IsWordChar(db, c), s)
    else if !db.isSpace(s[0]) then 1
    else RunLength(db.isSpace, s)
  }

  /** `re.findall(r'\w+|[^\w\s]|\s+', text)`. */
  function Tokens(db: UnicodeDb, s: string): seq<string>
    decreases |s|
  {
    if s == [] then [] else [s[..TokenLength(db, s)]] + Tokens(db, s[TokenLength(db, s)..])
  }

  /** The tokens tile the text: they are non-empty and concatenate back to
      it. */
  lemma {:induction false} TokensTile(db: UnicodeDb, s: string)
    ensures Concat(Tokens(db, s)) == s
    ensures forall i :: 0 <= i < |Tokens(db, s)| ==> Tokens(db, s)[i] != ""
    decreases |s|
  {
    if s != [] {
      var n := TokenLength(db, s);
      TokensTile(db, s[n..]);
      assert s[..n] + s[n..] == s;
    }
  }

  /** Each token is a maximal run of word characters, a single character
      that is neither a word character nor a space, or a maximal run of
      spaces. */
  lemma TokenKinds(db: UnicodeDb, s: string)
    requires s != []
    ensures var t := s[..TokenLength(db, s)];
      || ((forall i :: 0 <= i < |t| ==> IsWordChar(db, t[i])) && (|t| < |s| ==> !IsWordChar(db, s[|t|])))
      || (|t| == 1 && !IsWordChar(db, t[0]) && !db.isSpace(t[0]))
      || (!IsWordChar(db, t[0]) && (forall i :: 0 <= i < |t| ==> db.isSpace(t[i])) && (|t| < |s| ==> !db.isSpace(s[|t|])))
  {
  }

  // ---------------------------------------------------------------------
  // `highlight`

  /** One piece of the output: a token copied as it is, or wrapped in the
      highlight span. */
  datatype Piece = Verbatim(text: string) | Wrapped(text: string)

  const SpanOpen: string := "<span class=\"highlight\">"
  const SpanClose: string := "</span>"

  function Render(p: Piece): string {
    match p
    case Verbatim(t) => t
    case Wrapped(t) => SpanOpen + t + SpanClose
  }

  /** `{k.strip().lower() for k in keywords if k.strip()}`: keywords are
      stripped and lower-cased here, but not accent-folded. */
  function NormalizedKeywords(db: UnicodeDb, keywords: seq<string>): (r: set<string>)
    ensures forall w :: w in r ==> exists i :: 0 <= i < |keywords| && Strip(db, keywords[i]) != "" && w == Lower(db, Strip(db, keywords[i]))
    ensures forall i :: 0 <= i < |keywords| && Strip(db, keywords[i]) != "" ==> Lower(db, Strip(db, keywords[i])) in r
  {
    set i | 0 <= i < |keywords| && Strip(db, keywords[i]) != "" :: Lower(db, Strip(db, keywords[i]))
  }

  /** A token is wrapped exactly when it is alphanumeric and its folded
      form is a keyword; otherwise it is copied unchanged. */
  function Classify(db: UnicodeDb, token: string, kws: set<string>): (p: Piece)
    ensures p.text == token
    ensures p.Wrapped? <==> IsAlnumStr(db, token) && Fold(db, token) in kws
  {
    if IsAlnumStr(db, token) && Fold(db, token) in kws then Wrapped(token) else Verbatim(token)
  }

  function Pieces(db: UnicodeDb, tokens: seq<string>, kws: set<string>): (ps: seq<Piece>)
    ensures |ps| == |tokens|
    ensures forall i :: 0 <= i < |ps| ==> ps[i] == Classify(db, tokens[i], kws)
  {
    seq(|tokens|, i requires 0 <= i < |tokens| => Classify(db, tokens[i], kws))
  }

  function Rendered(ps: seq<Piece>): (out: seq<string>)
    ensures |out| == |ps|
    ensures forall i :: 0 <= i < |ps| ==> out[i] == Render(ps[i])
  {
    seq(|ps|, i requires 0 <= i < |ps| => Render(ps[i]))
  }

  /** The text of the pieces with every wrapper taken off. */
  function Erased(ps: seq<Piece>): (out: seq<string>)
    ensures |out| == |ps|
    ensures forall i :: 0 <= i < |ps| ==> out[i] == ps[i].text
  {
    seq(|ps|, i requires 0 <= i < |ps| => ps[i].text)
  }

  /** The value of `highlight(text, keywords)`. */
  function Highlighted(db: UnicodeDb, text: string, keywords: seq<string>): (html: string)
    ensures NormalizedKeywords(db, keywords) == {} || text == "" ==> html == text
  {
    var kws := NormalizedKeywords(db, keywords);
    if kws == {} || text == "" then text else Concat(Rendered(Pieces(db, Tokens(db, text), kws)))
  }

  /** The loop of `highlight` appending one piece per token to `output`. */
  method RenderTokens(db: UnicodeDb, tokens: seq<string>, kws: set<string>) returns (output: seq<string>)
    ensures output == Rendered(Pieces(db, tokens, kws))
  {
    output := [];
    var i := 0;
    while i < |tokens|
      invariant 0 <= i <= |tokens|
      invariant |output| == i
      invariant forall k :: 0 <= k < i ==> output[k] == Render(Classify(db, tokens[k], kws))
    {
      var token := tokens[i];
      if IsAlnumStr(db, token) && Fold(db, token) in kws {
        output := output + [SpanOpen + token + SpanClose];
      } else {
        output := output + [token];
      }
      i := i + 1;
    }
  }

  /** `highlight(text, keywords)`. */
  method Highlight(db: UnicodeDb, text: string, keywords: seq<string>) returns (html: string)
    ensures html == Highlighted(db, text, keywords)
  {
    var kws := NormalizedKeywords(db, keywords);
    if kws == {} || text == "" {
      return text;
    }
    var output := RenderTokens(db, Tokens(db, text), kws);
    html := Concat(output);
  }

  /** Taking the wrappers off the highlighted pieces gives back the text
      exactly. */
  lemma HighlightErasesToText(db: UnicodeDb, text: string, kws: set<string>)
    ensures Concat(Erased(Pieces(db, Tokens(db, text), kws))) == text
  {
    var tokens := Tokens(db, text);
    assert Erased(Pieces(db, tokens, kws)) == tokens;
    TokensTile(db, text);
  }

  /** When the database does not count '_' as alphanumeric, a token
      containing '_' is never wrapped. */
  lemma UnderscoreTokensNeverWrapped(db: UnicodeDb, token: string, kws: set<string>)
    requires !db.isAlnum('_') && '_' in token
    ensures Classify(db, token, kws) == Verbatim(token)
  {
  }

  // ---------------------------------------------------------------------
  // Looking a protocol up by its pid

  /** SQLite stores an INTEGER in 64 bits, two's complement: binding a
      Python int outside this range as a query parameter raises
      `OverflowError`. */
  const SqliteIntegerMin: int := -0x8000_0000_0000_0000
  const SqliteIntegerMax: int := 0x7FFF_FFFF_FFFF_FFFF

  predicate FitsSqliteInteger(n: int) {
    SqliteIntegerMin <= n <= SqliteIntegerMax
  }

  predicate KeyFitsSqlite(k: Key) {
    FitsSqliteInteger(k.0) && FitsSqliteInteger(k.1)
  }

  /** What `get_single_protocol_content` does: return a value, or raise
      the `OverflowError` that its `except (ValueError, IndexError)` does
      not catch. */
  datatype Lookup = Returned(content: Option<string>) | OverflowError {
    /** The content, with "" for a miss and for an error. */
    function Text(): string {
      if Returned? then content.GetOr("") else ""
    }
  }

  /** `get_single_protocol_content(pid)`: `None` when the pid does not
      split into two parts or a part is not an integer; `OverflowError`
      when a part does not fit SQLite's INTEGER; otherwise the content of
      the row with that key, or `None` when there is none. */
  function SingleProtocolContent(db: UnicodeDb, table: map<Key, Row>, pid: string): (r: Lookup)
    ensures ParsePid(db, pid).None? ==> r == Returned(None)
    ensures r.OverflowError? <==> ParsePid(db, pid).Some? && !KeyFitsSqlite(ParsePid(db, pid).value)
    ensures r.Returned? && r.content.Some? <==>
      ParsePid(db, pid).Some? && KeyFitsSqlite(ParsePid(db, pid).value) && ParsePid(db, pid).value in table
    ensures r.Returned? && r.content.Some? ==> r.content.value == table[ParsePid(db, pid).value].content
  {
    match ParsePid(db, pid)
    case None => Returned(None)
    case Some(k) =>
      if !KeyFitsSqlite(k) then OverflowError
      else if k in table then Returned(Some(table[k].content))
      else Returned(None)
  }

  /** A pid built from a key finds the row of that key, and raises when
      the key does not fit SQLite's INTEGER. */
  lemma ContentOfFormattedPid(db: UnicodeDb, table: map<Key, Row>, year: int, number: int)
    requires NumeralsAreNotSpace(db)
    ensures SingleProtocolContent(db, table, FormatPid(year, number)) ==
      if !KeyFitsSqlite((year, number)) then OverflowError
      else if (year, number) in table then Returned(Some(table[(year, number)].content))
      else Returned(None)
  {
    ParseFormatPid(db, year, number);
  }

  /** The smallest year past SQLite's range: its pid raises instead of
      finding nothing. */
  lemma OversizedPidRaises(db: UnicodeDb, table: map<Key, Row>)
    requires NumeralsAreNotSpace(db)
    ensures SingleProtocolContent(db, table, FormatPid(SqliteIntegerMax + 1, 1)) == OverflowError
  {
    ContentOfFormattedPid(db, table, SqliteIntegerMax + 1, 1);
  }

  /** A pid without exactly one '/' finds nothing. */
  lemma PidWithoutOneSlashFindsNothing(db: UnicodeDb, table: map<Key, Row>, pid: string)
    requires CountChar(pid, '/') != 1
    ensures SingleProtocolContent(db, table, pid) == Returned(None)
  {
    ParsePidNeedsOneSlash(db, pid);
  }

  // ---------------------------------------------------------------------
  // The row loop of `api_protocols`

  /** One row of the results query. */
  datatype DbRow = DbRow(year: int, number: int, content: Option<string>)

  /** One entry of the `protocols` list of the response. */
  datatype ApiProtocol = ApiProtocol(id: string, ano: int, numero: string, hasArchivado: bool)

  const ArchivedMarker: string := "arquiva-se o protocolo"

  /** The entry built for a row. */
  function ToApi(db: UnicodeDb, r: DbRow): (p: ApiProtocol)
    ensures p.id == FormatPid(r.year, r.number) && p.ano == r.year
    ensures |p.numero| >= 5
    ensures p.hasArchivado <==> IsSubstring(ArchivedMarker, Lower(db, r.content.GetOr("")))
  {
    ApiProtocol(FormatPid(r.year, r.number), r.year, ZFill(IntToString(r.number), 5),
                IsSubstring(ArchivedMarker, Lower(db, r.content.GetOr(""))))
  }

  /** The entries for the rows whose pid is not in `removidos`, in row order. */
  function ApiList(db: UnicodeDb, rows: seq<DbRow>, removidos: set<string>): seq<ApiProtocol> {
    FilterMap(rows, (r: DbRow) => FormatPid(r.year, r.number) !in removidos, (r: DbRow) => ToApi(db, r))
  }

  /** The loop filling `protocolos`. */
  method ApiProtocols(db: UnicodeDb, rows: seq<DbRow>, removidos: set<string>) returns (protocolos: seq<ApiProtocol>)
    ensures protocolos == ApiList(db, rows, removidos)
  {
    protocolos := [];
    var i := 0;
    while i < |rows|
      invariant 0 <= i <= |rows|
      invariant protocolos == ApiList(db, rows[..i], removidos)
    {
      assert rows[..i + 1][..i] == rows[..i];
      var row := rows[i];
      var pid := FormatPid(row.year, row.number);
      if pid !in removidos {
        protocolos := protocolos + [ToApi(db, row)];
      }
      i := i + 1;
    }
    assert rows[..i] == rows;
  }

  /** The list is exactly the kept rows, in row order: `idx` lists the
      kept row positions ascending, and a row is kept exactly when its pid
      is not removed. */
  lemma ApiListSelection(db: UnicodeDb, rows: seq<DbRow>, removidos: set<string>) returns (idx: seq<int>)
    ensures |idx| == |ApiList(db, rows, removidos)|
    ensures forall k :: 0 <= k < |idx| ==> 0 <= idx[k] < |rows| && ApiList(db, rows, removidos)[k] == ToApi(db, rows[idx[k]])
    ensures forall k, l :: 0 <= k < l < |idx| ==> idx[k] < idx[l]
    ensures forall i :: 0 <= i < |rows| ==> (i in idx <==> FormatPid(rows[i].year, rows[i].number) !in removidos)
  {
    idx := FilterMapSelection(rows, (r: DbRow) => FormatPid(r.year, r.number) !in removidos, (r: DbRow) => ToApi(db, r));
  }

  /** Every entry's id parses back to its row's key, so the detail and
      export routes find the row the list showed. */
  lemma ApiIdParsesBack(db: UnicodeDb, r: DbRow)
    requires NumeralsAreNotSpace(db)
    ensures ParsePid(db, ToApi(db, r).id) == Some((r.year, r.number))
  {
    ParseFormatPid(db, r.year, r.number);
  }

  // ---------------------------------------------------------------------
  // The totals of `api_protocols`

  /** The row of the totals query: COUNT is never NULL, a SUM over no rows
      is. */
  datatype TotalsRow = TotalsRow(todos: Option<int>, arch: Option<int>, amabre: Option<int>)

  datatype Totals = Totals(todos: int, arch: int, notarch: int, amabre: int)

  /** Python's `x or 0` on a column value. */
  function OrZero(v: Option<int>): (r: int)
    ensures v.None? ==> r == 0
    ensures v.Some? ==> r == v.value
  {
    if v.Some? then v.value else 0
  }

  /** The `totals` object of the response. */
  function ComputeTotals(q: TotalsRow): (t: Totals)
    ensures t.todos == OrZero(q.todos) && t.arch == OrZero(q.arch) && t.amabre == OrZero(q.amabre)
    ensures t.notarch == t.todos - t.arch
  {
    var todos, arch := OrZero(q.todos), OrZero(q.arch);
    Totals(todos, arch, todos - arch, OrZero(q.amabre))
  }

  /** Number of contents that are present and satisfy `like`. A NULL
      content satisfies no LIKE. */
  function CountLike(contents: seq<Option<string>>, like: string -> bool): (n: nat)
    ensures n <= |contents|
    decreases |contents|
  {
    if contents == [] then 0
    else CountLike(contents[..|contents| - 1], like) + (match contents[|contents| - 1] case Some(c) => (if like(c) then 1 else 0) case None => 0)
  }

  /** Number of contents that do not satisfy `like`, NULL included. */
  function CountNotLike(contents: seq<Option<string>>, like: string -> bool): nat
    decreases |contents|
  {
    if contents == [] then 0
    else CountNotLike(contents[..|contents| - 1], like) + (match contents[|contents| - 1] case Some(c) => (if like(c) then 0 else 1) case None => 1)
  }

  /** What the totals query returns over the rows its filter admits, given
      SQLite's LIKE for the two patterns. */
  function TotalsQuery(contents: seq<Option<string>>, archLike: string -> bool, amabreLike: string -> bool): TotalsRow {
    TotalsRow(Some(|contents|),
              if contents == [] then None else Some(CountLike(contents, archLike)),
              if contents == [] then None else Some(CountLike(contents, amabreLike)))
  }

  lemma {:induction false} CountLikeSplit(contents: seq<Option<string>>, like: string -> bool)
    ensures CountLike(contents, like) + CountNotLike(contents, like) == |contents|
    decreases |contents|
  {
    if contents != [] {
      CountLikeSplit(contents[..|contents| - 1], like);
    }
  }

  /** The totals count the admitted rows, the archived ones among them, and
      as `notarch` every other row, those without content included; none
      of them is negative, even over an empty table. */
  lemma TotalsOfRows(contents: seq<Option<string>>, archLike: string -> bool, amabreLike: string -> bool)
    ensures var t := ComputeTotals(TotalsQuery(contents, archLike, amabreLike));
      t.todos == |contents| && t.arch == CountLike(contents, archLike)
      && t.notarch == CountNotLike(contents, archLike) && t.amabre == CountLike(contents, amabreLike)
      && t.notarch >= 0
  {
    CountLikeSplit(contents, archLike);
  }

  // ---------------------------------------------------------------------
  // `exportar`

  /** The response of `exportar`: 400 for no ids, the exported text, or
      the failure of the whole request when a lookup raises. */
  datatype ExportResult = BadRequest | Exported(text: string) | ServerError

  function ExportBlock(pid: string, content: string): string {
    "---" + pid + "---" + content
  }

  /** Whether `pid` names a stored row with non-empty content. */
  predicate HasContent(db: UnicodeDb, table: map<Key, Row>, pid: string) {
    SingleProtocolContent(db, table, pid).Text() != ""
  }

  /** `get_single_protocol_content` as a function of the pid. */
  function LookupIn(db: UnicodeDb, table: map<Key, Row>): string -> Lookup {
    (pid: string) => SingleProtocolContent(db, table, pid)
  }

  /** The blocks `---pid---content` for the pids in the given order, each
      looked up with `look`, skipping every pid whose content is missing
      or empty. */
  function Blocks(pids: seq<string>, look: string -> Lookup): seq<string> {
    FilterMap(pids, (pid: string) => look(pid).Text() != "",
              (pid: string) => ExportBlock(pid, look(pid).Text()))
  }

  /** The blocks of the export for the pids in the given order. */
  function ExportBlocks(db: UnicodeDb, table: map<Key, Row>, pids: seq<string>): seq<string> {
    Blocks(pids, LookupIn(db, table))
  }

  /** Visiting one more pid adds its block when it has content. */
  lemma BlocksSnoc(pids: seq<string>, pid: string, look: string -> Lookup)
    ensures Blocks(pids + [pid], look) ==
      Blocks(pids, look) + if look(pid).Text() != "" then [ExportBlock(pid, look(pid).Text())] else []
  {
    assert (pids + [pid])[..|pids|] == pids;
  }

  /** `exportar`: 400 for an empty id set; a failed request when the
      lookup of any id raises, since the loop visits every id before it
      answers; otherwise the blocks of the distinct ids in sorted order,
      separated by blank lines. `order` is `sorted(list(ids))`. */
  method Exportar(db: UnicodeDb, table: map<Key, Row>, ids: set<string>) returns (r: ExportResult, order: seq<string>)
    ensures r.BadRequest? <==> ids == {}
    ensures r.ServerError? <==> ids != {} && exists pid :: pid in ids && SingleProtocolContent(db, table, pid).OverflowError?
    ensures StrictlySortedBy(order, LexLess) && forall p :: p in order <==> p in ids
    ensures r.Exported? ==> r.text == Join(ExportBlocks(db, table, order), "\n\n")
  {
    LexLessIsStrictTotalOrder();
    if ids == {} {
      return BadRequest, [];
    }
    order := SortSet(ids, LexLess);
    var look := LookupIn(db, table);
    r := JoinBlocks(order, look);
    if r.ServerError? {
      var j :| 0 <= j < |order| && look(order[j]).OverflowError?;
      assert order[j] in ids;
    } else {
      forall pid | pid in ids
        ensures !SingleProtocolContent(db, table, pid).OverflowError?
      {
        var j :| 0 <= j < |order| && order[j] == pid;
        assert look(order[j]) == SingleProtocolContent(db, table, pid);
      }
    }
  }

  /** The loop of `exportar` over the sorted ids: it stops at the first
      lookup that raises, and otherwise joins the blocks. */
  method JoinBlocks(order: seq<string>, look: string -> Lookup) returns (r: ExportResult)
    ensures !r.BadRequest?
    ensures r.ServerError? <==> exists j :: 0 <= j < |order| && look(order[j]).OverflowError?
    ensures r.Exported? ==> r.text == Join(Blocks(order, look), "\n\n")
  {
    var blocos: seq<string> := [];
    var i := 0;
    while i < |order|
      invariant 0 <= i <= |order|
      invariant blocos == Blocks(order[..i], look)
      invariant forall j :: 0 <= j < i ==> !look(order[j]).OverflowError?
    {
      var pid := order[i];
      var content := look(pid);
      if content.OverflowError? {
        return ServerError;
      }
      assert order[..i + 1] == order[..i] + [pid];
      BlocksSnoc(order[..i], pid, look);
      if content.Text() != "" {
        blocos := blocos + [ExportBlock(pid, content.Text())];
      }
      i := i + 1;
    }
    assert order[..i] == order;
    r := Exported(Join(blocos, "\n\n"));
  }

  /** A block is exported exactly for a listed pid with non-empty content. */
  lemma ExportBlocksMembership(db: UnicodeDb, table: map<Key, Row>, pids: seq<string>, b: string)
    ensures b in ExportBlocks(db, table, pids) <==>
      exists i :: 0 <= i < |pids| && HasContent(db, table, pids[i])
        && b == ExportBlock(pids[i], SingleProtocolContent(db, table, pids[i]).content.value)
  {
    var look := LookupIn(db, table);
    FilterMapMembership(pids, (pid: string) => look(pid).Text() != "",
                        (pid: string) => ExportBlock(pid, look(pid).Text()), b);
  }

  /** For pids of four-digit years and numbers below 100000, the sorted
      export order is the numeric order of (year, number). */
  lemma ExportOrderIsNumeric(order: seq<string>, i: int, j: int, y1: int, n1: int, y2: int, n2: int)
    requires StrictlySortedBy(order, LexLess)
    requires 0 <= i < j < |order|
    requires 1000 <= y1 <= 9999 && 1000 <= y2 <= 9999 && 0 <= n1 < 100000 && 0 <= n2 < 100000
    requires order[i] == FormatPid(y1, n1) && order[j] == FormatPid(y2, n2)
    ensures y1 < y2 || (y1 == y2 && n1 < n2)
  {
    PidOrder(y1, n1, y2, n2);
  }

  // ---------------------------------------------------------------------
  // The keyword list of the read side

  /** `LISTA_ORIGINAL = sorted(...)` followed by `get_lista_normalizada()`:
      sorting the names first does not change the list. */
  method AppListaNormalizada(db: UnicodeDb, listaOriginal: seq<string>, fams: Families) returns (r: set<string>)
    ensures r == ExpandedKeywords(db, listaOriginal, fams)
  {
    LexLessIsStrictTotalOrder();
    var sorted := SortSeq(listaOriginal, LexLess);
    r := GetListaNormalizada(db, sorted, fams);
    ExpandedKeywordsSameNames(db, sorted, listaOriginal, fams);
  }

  /** The expanded list depends only on which names are configured. */
  lemma ExpandedKeywordsSameNames(db: UnicodeDb, a: seq<string>, b: seq<string>, fams: Families)
    requires multiset(a) == multiset(b)
    ensures ExpandedKeywords(db, a, fams) == ExpandedKeywords(db, b, fams)
  {
    forall w
      ensures w in ExpandedKeywords(db, a, fams) <==> w in ExpandedKeywords(db, b, fams)
    {
      ExpandedKeywordsMembership(db, a, fams, w);
      ExpandedKeywordsMembership(db, b, fams, w);
      forall i | 0 <= i < |a|
        ensures exists j :: 0 <= j < |b| && b[j] == a[i]
      {
        assert a[i] in multiset(a);
        assert a[i] in b;
      }
      forall j | 0 <= j < |b|
        ensures exists i :: 0 <= i < |a| && a[i] == b[j]
      {
        assert b[j] in multiset(b);
        assert b[j] in a;
      }
    }
  }
}

/** The sync engine of enhanced_protocol_scraper.py: what one fetch turns
    into (`scrape_protocol` and `_perform_scrape`), which
    numbers a year schedules (`main`), how the results are
    written, the delta report and the gap
    analysis. The browser is replaced by the outcome of
    each page load, given as a parameter. */
module Scraper {
  import opened Text
  import opened Wrappers
  import opened Decimal
  import opened Unicode
  import opened Dates
  import opened Pids
  import opened Keywords
  import opened Store
  import opened Frontier

  // ---------------------------------------------------------------------
  // One fetch

  /** How the result page of one lookup ended inside `_perform_scrape`'s
      `try`: the result fieldset showed up with its text, the wait timed
      out (with the error span's text, or without any error span), or
      another exception was raised with the given message. */
  datatype PageOutcome =
    | ResultShown(text: string)
    | TimedOut(errorText: Option<string>)
    | Crashed(message: string)

  /** A whole call of `_perform_scrape`: it either ran to its `return`, or
      an exception escaped it (starting the browser, loading the page,
      closing the browser). */
  datatype FetchAttempt = Ran(page: PageOutcome) | Raised(message: string)

  /** The `(content, arquivado, last_update)` triple of a fetch. */
  datatype ScrapeResult = ScrapeResult(content: string, arquivado: Flag, lastUpdate: Option<string>)

  /** The exact, case-sensitive text whose presence marks a fetched record
      archived; the final period is part of it. */
  const ArchivedPhrase: string := "Conforme andamento arquiva-se o protocolo."
  const TimeoutContent: string := "Timeout: Protocol not found or page did not load."
  const UnexpectedErrorPrefix: string := "An unexpected error occurred: "
  const ScrapeErrorPrefix: string := "SCRAPE_ERROR: "

  /** `_perform_scrape` once its page has loaded. */
  function PerformScrape(page: PageOutcome): (r: ScrapeResult)
    ensures page.ResultShown? ==> r.content == page.text && r.lastUpdate == LatestDateString(page.text)
    ensures page.ResultShown? ==> (r.arquivado == Yes <==> IsSubstring(ArchivedPhrase, page.text))
    ensures !page.ResultShown? ==> r.arquivado == No && r.lastUpdate == None
    ensures page.TimedOut? ==> r.content == page.errorText.GetOr(TimeoutContent)
    ensures page.Crashed? ==> r.content == UnexpectedErrorPrefix + page.message
  {
    match page
    case ResultShown(text) =>
      ScrapeResult(text, if IsSubstring(ArchivedPhrase, text) then Yes else No, LatestDateString(text))
    case TimedOut(errorText) =>
      ScrapeResult(if errorText.Some? then errorText.value else TimeoutContent, No, None)
    case Crashed(message) =>
      ScrapeResult(UnexpectedErrorPrefix + message, No, None)
  }

  /** `scrape_protocol`: an exception escaping the fetch is stored as
      `SCRAPE_ERROR: ...`, open and without a date. */
  function ScrapeProtocol(attempt: FetchAttempt): (r: ScrapeResult)
    ensures attempt.Raised? ==> r == ScrapeResult(ScrapeErrorPrefix + attempt.message, No, None)
  {
    match attempt
    case Ran(page) => PerformScrape(page)
    case Raised(message) => ScrapeResult(ScrapeErrorPrefix + message, No, None)
  }

  /** A fetch is classified archived exactly when its result page was
      shown and contains the archiving phrase, period included; a date is
      only ever taken from a shown page, and it is a `yyyy-mm-dd` string. */
  lemma ScrapeClassification(attempt: FetchAttempt)
    ensures ScrapeProtocol(attempt).arquivado == Yes <==>
      attempt.Ran? && attempt.page.ResultShown? && IsSubstring(ArchivedPhrase, attempt.page.text)
    ensures ScrapeProtocol(attempt).lastUpdate.Some? ==>
      attempt.Ran? && attempt.page.ResultShown? && |ScrapeProtocol(attempt).lastUpdate.value| == 10
  {
    if attempt.Ran? && attempt.page.ResultShown? {
      LatestDateStringSpec(attempt.page.text);
      var t := attempt.page.text;
      if LatestDateString(t).Some? {
        var d := LatestOf(DateMatches(t));
        assert LatestDateString(t) == Some(FormatDate(d.value));
      }
    }
  }

  // ---------------------------------------------------------------------
  // Planning

  /** The bound of `Range` as a named term: the comprehension states the
      bound inline so that Dafny sees the set is finite, and once more
      through this predicate so that the verifier has a term to match on. */
  predicate Between(lo: int, n: int, hi: int) {
    lo <= n <= hi
  }

  /** `set(range(lo, hi + 1))`. */
  function Range(lo: int, hi: int): set<int> {
    set n | lo <= n <= hi && Between(lo, n, hi)
  }

  /** `list(range(lo, hi + 1))`. */
  function Ascending(lo: int, hi: int): (s: seq<int>)
    ensures |s| == if hi >= lo then hi - lo + 1 else 0
  {
    seq(if hi >= lo then hi - lo + 1 else 0, i => lo + i)
  }

  /** The numbers a year schedules: all of `1..maxNum` under
      `--force-update`, otherwise the never-seen numbers of `1..maxNum`
      together with the stored open, recently active ones (which may lie
      above `maxNum`). */
  function WorkSet(maxNum: int, existing: set<int>, stale: set<int>, force: bool): set<int> {
    if force then Range(1, maxNum) else (Range(1, maxNum) - existing) + stale
  }

  /** `sorted(list(...))` over the work set. */
  method PlanWork(maxNum: int, existing: set<int>, stale: set<int>, force: bool) returns (plan: seq<int>)
    ensures StrictlySortedBy(plan, IntLess)
    ensures forall n :: n in plan <==> n in WorkSet(maxNum, existing, stale, force)
    ensures force ==> plan == Ascending(1, maxNum)
  {
    IntLessIsStrictTotalOrder();
    plan := SortSet(WorkSet(maxNum, existing, stale, force), IntLess);
    if force {
      ForcedPlanIsAscending(plan, maxNum);
    }
  }

  /** The strictly ascending listing of `1..maxNum` is `1, 2, ..., maxNum`. */
  lemma ForcedPlanIsAscending(plan: seq<int>, maxNum: int)
    requires StrictlySortedBy(plan, IntLess)
    requires forall n :: n in plan <==> n in Range(1, maxNum)
    ensures plan == Ascending(1, maxNum)
  {
    var a := Ascending(1, maxNum);
    assert forall n :: n in a <==> n in Range(1, maxNum) by {
      forall n | n in Range(1, maxNum)
        ensures n in a
      {
        assert a[n - 1] == n;
      }
      forall n | n in a
        ensures n in Range(1, maxNum)
      {
        var i :| 0 <= i < |a| && a[i] == n;
      }
    }
    assert forall n :: n in plan <==> n in a;
    IntLessIsStrictTotalOrder();
    StrictlySortedUnique(plan, a, IntLess);
  }

  /** Without `--force-update`, a number is scheduled when it was never
      stored (and is at most `maxNum`), or when it is stored open and
      recent; a stored number that is archived or stale is never
      scheduled again. */
  lemma WorkSetCoverage(maxNum: int, existing: set<int>, stale: set<int>, n: int)
    requires stale <= existing
    ensures 1 <= n <= maxNum && n !in existing ==> n in WorkSet(maxNum, existing, stale, false)
    ensures n in stale ==> n in WorkSet(maxNum, existing, stale, false)
    ensures n in existing && n !in stale ==> n !in WorkSet(maxNum, existing, stale, false)
    ensures n in WorkSet(maxNum, existing, stale, false) && n in existing ==> n in stale
  {
  }

  /** Example: numbers 1, 2 and 5 stored, 5 still open and recent, frontier
      6: the run fetches 3, 4, 5 and 6. A stale open number above the
      frontier is fetched too. */
  lemma WorkSetExamples()
    ensures WorkSet(6, {1, 2, 5}, {5}, false) == {3, 4, 5, 6}
    ensures WorkSet(3, {1, 2, 3, 7}, {7}, false) == {7}
    ensures WorkSet(3, {1, 2}, {}, true) == {1, 2, 3}
  {
    assert WorkSet(6, {1, 2, 5}, {5}, false) == {3, 4, 5, 6} by {
      assert forall n :: n in Range(1, 6) <==> n in {1, 2, 3, 4, 5, 6};
      assert Range(1, 6) == {1, 2, 3, 4, 5, 6};
    }
    assert WorkSet(3, {1, 2, 3, 7}, {7}, false) == {7} by {
      assert Range(1, 3) == {1, 2, 3};
    }
    assert Range(1, 3) == {1, 2, 3};
  }

  // ---------------------------------------------------------------------
  // Ingestion

  /** The row written for one result: a missing date becomes today. */
  function StoredRow(r: ScrapeResult, today: Date): (row: Row)
    requires ValidDate(today)
    ensures row.content == r.content && row.arquivado == r.arquivado
    ensures row.lastUpdate == (if r.lastUpdate.Some? then r.lastUpdate.value else FormatDate(today))
  {
    Row(r.content, r.arquivado, if r.lastUpdate.Some? then r.lastUpdate.value else FormatDate(today))
  }

  /** The row a run writes for key `k`: its fetch, classified, dated. */
  function FetchedRow(fetch: (int, int) -> FetchAttempt, today: Date, k: Key): (row: Row)
    requires ValidDate(today)
    ensures row == StoredRow(ScrapeProtocol(fetch(k.0, k.1)), today)
  {
    StoredRow(ScrapeProtocol(fetch(k.0, k.1)), today)
  }

  /** All rows a run writes, as one function of the key. */
  function Written(fetch: (int, int) -> FetchAttempt, today: Date): Key -> Row
    requires ValidDate(today)
  {
    k => FetchedRow(fetch, today, k)
  }

  /** The table after `rowOf((year, n))` has been written for the numbers
      `n` of `plan`, in that order. */
  function Ingested(rows: map<Key, Row>, year: int, plan: seq<int>, rowOf: Key -> Row): map<Key, Row>
    decreases |plan|
  {
    if plan == [] then rows
    else
      var n := plan[|plan| - 1];
      Ingested(rows, year, plan[..|plan| - 1], rowOf)[(year, n) := rowOf((year, n))]
  }

  /** The loop that writes every result of a year; `fetch(year, n)` is what
      the lookup of `n` came to in this run. */
  method IngestYear(store: ProtocolStore, year: int, plan: seq<int>, fetch: (int, int) -> FetchAttempt, today: Date)
    requires ValidDate(today)
    modifies store
    ensures store.rows == Ingested(old(store.rows), year, plan, Written(fetch, today))
  {
    var i := 0;
    while i < |plan|
      invariant 0 <= i <= |plan|
      invariant store.rows == Ingested(old(store.rows), year, plan[..i], Written(fetch, today))
    {
      assert plan[..i + 1][..i] == plan[..i];
      var res := ScrapeProtocol(fetch(year, plan[i]));
      var lastUpdate := if res.lastUpdate.Some? then res.lastUpdate.value else FormatDate(today);
      assert Written(fetch, today)((year, plan[i])) == Row(res.content, res.arquivado, lastUpdate);
      store.InsertProtocol(year, plan[i], res.content, res.arquivado, lastUpdate);
      i := i + 1;
    }
    assert plan[..i] == plan;
  }

  /** After ingesting a year, every scheduled number is stored with the row
      written for it, and every other row is as before. */
  lemma {:induction false} IngestedLookup(rows: map<Key, Row>, year: int, plan: seq<int>, rowOf: Key -> Row, k: Key)
    ensures k in Ingested(rows, year, plan, rowOf) <==> k in rows || (k.0 == year && k.1 in plan)
    ensures k in Ingested(rows, year, plan, rowOf) ==>
      Ingested(rows, year, plan, rowOf)[k] == if k.0 == year && k.1 in plan then rowOf(k) else rows[k]
    decreases |plan|
  {
    if plan != [] {
      var init := plan[..|plan| - 1];
      IngestedLookup(rows, year, init, rowOf, k);
      assert plan == init + [plan[|plan| - 1]];
    }
  }

  /** The order in which results arrive does not matter: any ordering of
      the same numbers writes the same table. */
  lemma IngestOrderIrrelevant(rows: map<Key, Row>, year: int, p: seq<int>, q: seq<int>, rowOf: Key -> Row)
    requires forall n :: n in p <==> n in q
    ensures Ingested(rows, year, p, rowOf) == Ingested(rows, year, q, rowOf)
  {
    var a, b := Ingested(rows, year, p, rowOf), Ingested(rows, year, q, rowOf);
    forall k
      ensures k in a <==> k in b
      ensures k in a ==> a[k] == b[k]
    {
      IngestedLookup(rows, year, p, rowOf, k);
      IngestedLookup(rows, year, q, rowOf, k);
      var m := k.1;
      assert m in p <==> m in q;
    }
  }

  /** Every scheduled number ends with a `Last_update` that is a date. */
  lemma IngestedDatesPresent(rows: map<Key, Row>, year: int, plan: seq<int>, fetch: (int, int) -> FetchAttempt, today: Date, n: int)
    requires ValidDate(today) && n in plan
    ensures (year, n) in Ingested(rows, year, plan, Written(fetch, today))
    ensures |Ingested(rows, year, plan, Written(fetch, today))[(year, n)].lastUpdate| == 10
  {
    IngestedLookup(rows, year, plan, Written(fetch, today), (year, n));
    ScrapeClassification(fetch(year, n));
  }

  /** A fetch that raised is stored as `SCRAPE_ERROR: ...`, open, dated
      today. */
  lemma FailedFetchStored(rows: map<Key, Row>, year: int, plan: seq<int>, fetch: (int, int) -> FetchAttempt, today: Date, n: int)
    requires ValidDate(today) && n in plan && fetch(year, n).Raised?
    ensures (year, n) in Ingested(rows, year, plan, Written(fetch, today))
    ensures Ingested(rows, year, plan, Written(fetch, today))[(year, n)] ==
      Row(ScrapeErrorPrefix + fetch(year, n).message, No, FormatDate(today))
  {
    IngestedLookup(rows, year, plan, Written(fetch, today), (year, n));
  }

  /** The freshness test `Last_update >= cutoff` on a stored date holds
      exactly when that date is at most `days` days before `later`. */
  lemma DateWithinWindow(d: Date, later: Date, days: nat)
    requires ValidDate(d) && ValidDate(later) && Ordinal(later) > days
    ensures LexLe(FormatDate(DaysBefore(later, days)), FormatDate(d)) <==> Ordinal(later) - days <= Ordinal(d)
  {
    var c := DaysBefore(later, days);
    FormatDateOrder(c, d);
    DateLessIsOrdinalLess(c, d);
  }

  /** Hence a failed fetch stays due: the open row it leaves behind is
      fetched again by every later run whose window of `days` days (60 in
      the sync run) still reaches back to the day of the failure. */
  lemma FailedFetchIsRescheduled(rows: map<Key, Row>, year: int, plan: seq<int>, fetch: (int, int) -> FetchAttempt,
                                 today: Date, n: int, later: Date, days: nat)
    requires ValidDate(today) && ValidDate(later) && Ordinal(later) > days
    requires n in plan && fetch(year, n).Raised?
    requires Ordinal(later) - days <= Ordinal(today)
    ensures (year, n) in Ingested(rows, year, plan, Written(fetch, today))
    ensures var r := Ingested(rows, year, plan, Written(fetch, today))[(year, n)];
      r.arquivado == No && LexLe(FormatDate(DaysBefore(later, days)), r.lastUpdate)
  {
    FailedFetchStored(rows, year, plan, fetch, today, n);
    DateWithinWindow(today, later, days);
  }

  // ---------------------------------------------------------------------
  // The delta report

  /** One entry of `new_matching_protocols`. */
  datatype Match = Match(id: string, content: string)

  /** The row of `(year, n)` exists, has content, and matches a keyword. */
  predicate Reportable(db: UnicodeDb, rows: map<Key, Row>, year: int, n: int, keywords: set<string>) {
    (year, n) in rows && rows[(year, n)].content != "" && ContainsAnyKeyword(db, rows[(year, n)].content, keywords)
  }

  /** The entries for one year's scheduled numbers, in schedule order. */
  function YearMatches(db: UnicodeDb, rows: map<Key, Row>, year: int, nums: seq<int>, keywords: set<string>): seq<Match>
    decreases |nums|
  {
    if nums == [] then []
    else
      var prev := YearMatches(db, rows, year, nums[..|nums| - 1], keywords);
      var n := nums[|nums| - 1];
      if Reportable(db, rows, year, n, keywords) then prev + [Match(FormatPid(year, n), rows[(year, n)].content)] else prev
  }

  /** The entries for every scheduled year, in processing order. */
  function ReportMatches(db: UnicodeDb, rows: map<Key, Row>, scheduled: seq<(int, seq<int>)>, keywords: set<string>): seq<Match>
    decreases |scheduled|
  {
    if scheduled == [] then []
    else
      var last := scheduled[|scheduled| - 1];
      ReportMatches(db, rows, scheduled[..|scheduled| - 1], keywords) + YearMatches(db, rows, last.0, last.1, keywords)
  }

  /** The loops that fill `new_matching_protocols`. */
  method CollectMatches(db: UnicodeDb, store: ProtocolStore, scheduled: seq<(int, seq<int>)>, keywords: set<string>)
    returns (found: seq<Match>)
    ensures found == ReportMatches(db, store.rows, scheduled, keywords)
  {
    found := [];
    var i := 0;
    while i < |scheduled|
      invariant 0 <= i <= |scheduled|
      invariant found == ReportMatches(db, store.rows, scheduled[..i], keywords)
    {
      assert scheduled[..i + 1][..i] == scheduled[..i];
      var year := scheduled[i].0;
      var numbers := scheduled[i].1;
      ghost var before := found;
      var j := 0;
      while j < |numbers|
        invariant 0 <= j <= |numbers|
        invariant found == before + YearMatches(db, store.rows, year, numbers[..j], keywords)
      {
        assert numbers[..j + 1][..j] == numbers[..j];
        var n := numbers[j];
        if (year, n) in store.rows {
          var content := store.rows[(year, n)].content;
          if content != "" && ContainsAnyKeyword(db, content, keywords) {
            found := found + [Match(FormatPid(year, n), content)];
          }
        }
        j := j + 1;
      }
      assert numbers[..j] == numbers;
      i := i + 1;
    }
    assert scheduled[..i] == scheduled;
  }

  /** An entry is listed for a year exactly when one of its scheduled
      numbers is reportable, under that number's padded id and with its
      stored content. */
  lemma {:induction false} YearMatchesMembership(db: UnicodeDb, rows: map<Key, Row>, year: int, nums: seq<int>, keywords: set<string>, m: Match)
    ensures m in YearMatches(db, rows, year, nums, keywords) <==>
      exists n :: n in nums && Reportable(db, rows, year, n, keywords)
        && m == Match(FormatPid(year, n), rows[(year, n)].content)
    decreases |nums|
  {
    if nums != [] {
      var init, last := nums[..|nums| - 1], nums[|nums| - 1];
      YearMatchesMembership(db, rows, year, init, keywords, m);
      assert nums == init + [last];
      assert forall n :: n in nums <==> n in init || n == last;
      var prev := YearMatches(db, rows, year, init, keywords);
      if Reportable(db, rows, year, last, keywords) {
        assert YearMatches(db, rows, year, nums, keywords) == prev + [Match(FormatPid(year, last), rows[(year, last)].content)];
      } else {
        assert YearMatches(db, rows, year, nums, keywords) == prev;
      }
    }
  }

  /** The report lists only numbers scheduled in this run. */
  lemma {:induction false} ReportMatchesMembership(db: UnicodeDb, rows: map<Key, Row>, scheduled: seq<(int, seq<int>)>, keywords: set<string>, m: Match)
    ensures m in ReportMatches(db, rows, scheduled, keywords) <==>
      exists i :: 0 <= i < |scheduled| && m in YearMatches(db, rows, scheduled[i].0, scheduled[i].1, keywords)
    decreases |scheduled|
  {
    if scheduled != [] {
      var init := scheduled[..|scheduled| - 1];
      ReportMatchesMembership(db, rows, init, keywords, m);
      assert forall i :: 0 <= i < |init| ==> init[i] == scheduled[i];
    }
  }

  /** The block written for one entry. */
  function Block(m: Match): string {
    "--- " + m.id + " ---\n" + m.content + "\n\n"
  }

  function Blocks(found: seq<Match>): string
    decreases |found|
  {
    if found == [] then "" else Blocks(found[..|found| - 1]) + Block(found[|found| - 1])
  }

  function Header(timestamp: string): string {
    "Update de " + timestamp + "\n\n"
  }

  function CountLine(count: nat): string {
    "Foram encontrados " + NatToString(count) + " novos protocolos de interesse:\n\n"
  }

  /** The whole text written to `Update.txt` (the file is always
      rewritten); `timestamp` is the formatted clock reading. */
  function RenderReport(found: seq<Match>, timestamp: string): (text: string)
    ensures found == [] ==> text == "Sem update. " + timestamp
  {
    if found == [] then "Sem update. " + timestamp
    else Header(timestamp) + CountLine(|found|) + Blocks(found)
  }

  lemma {:induction false} BlockInBlocks(found: seq<Match>, i: int)
    requires 0 <= i < |found|
    ensures IsSubstring(Block(found[i]), Blocks(found))
    decreases |found|
  {
    var init := found[..|found| - 1];
    if i == |found| - 1 {
      SelfIsSubstring(Block(found[i]));
      SubstringInContext(Block(found[i]), Blocks(init), Block(found[i]), "");
      assert Blocks(init) + Block(found[i]) + "" == Blocks(found);
    } else {
      assert init[i] == found[i];
      BlockInBlocks(init, i);
      SubstringInContext(Block(found[i]), "", Blocks(init), Block(found[|found| - 1]));
      assert "" + Blocks(init) + Block(found[|found| - 1]) == Blocks(found);
    }
  }

  /** Every entry's block is in the report, and the report states how many
      there are; with no entry it is the single "Sem update." line. */
  lemma ReportContainsEveryEntry(found: seq<Match>, timestamp: string, i: int)
    requires 0 <= i < |found|
    ensures IsSubstring(Block(found[i]), RenderReport(found, timestamp))
    ensures IsSubstring(CountLine(|found|), RenderReport(found, timestamp))
  {
    var head := Header(timestamp);
    var count := CountLine(|found|);
    BlockInBlocks(found, i);
    SubstringInContext(Block(found[i]), head + count, Blocks(found), "");
    assert head + count + Blocks(found) + "" == RenderReport(found, timestamp);
    SelfIsSubstring(count);
    SubstringInContext(count, head, count, Blocks(found));
  }

  // ---------------------------------------------------------------------
  // Gap analysis

  /** What the `analyze` action logs for one year. */
  datatype GapReport = GapReport(count: nat, first: int, last: int, missing: set<int>)

  lemma {:induction false} RangeSize(lo: int, hi: int)
    ensures |Range(lo, hi)| == if hi >= lo then hi - lo + 1 else 0
    decreases if hi >= lo then hi - lo + 1 else 0
  {
    if hi >= lo {
      assert Range(lo, hi) == Range(lo, hi - 1) + {hi};
      RangeSize(lo, hi - 1);
    } else {
      assert Range(lo, hi) == {};
    }
  }

  /** `analyze` for one year: `None` when the year has no rows, otherwise
      the count, the smallest and largest stored number, and the numbers
      between them that are missing. */
  method AnalyzeYear(store: ProtocolStore, year: int) returns (r: Option<GapReport>)
    ensures r.None? <==> forall k :: k in store.rows ==> k.0 != year
    ensures r.Some? ==>
      var g := r.value;
      (year, g.first) in store.rows && (year, g.last) in store.rows
      && (forall n :: (year, n) in store.rows ==> g.first <= n <= g.last)
      && (forall n :: n in g.missing <==> g.first < n < g.last && (year, n) !in store.rows)
      && g.count == |ExistingIn(store.rows, year)|
      && g.count + |g.missing| == g.last - g.first + 1
  {
    var numbers := store.GetExistingProtocols(year);
    if numbers == {} {
      assert forall k :: k in store.rows ==> k.0 != year by {
        forall k | k in store.rows
          ensures k.0 != year
        {
          var n := k.1;
          assert k.0 == year ==> k == (year, n);
          assert (year, n) in store.rows ==> n in numbers;
          assert n !in numbers;
        }
      }
      return None;
    }
    var first, last := MinAndMax(numbers);
    var missing := set n | first <= n <= last && n !in numbers;
    assert numbers <= Range(first, last);
    assert missing == Range(first, last) - numbers;
    assert numbers + missing == Range(first, last);
    RangeSize(first, last);
    assert |numbers + missing| == |numbers| + |missing|;
    assert forall n :: n in numbers <==> n in ExistingIn(store.rows, year);
    assert numbers == ExistingIn(store.rows, year);
    r := Some(GapReport(|numbers|, first, last, missing));
  }

  /** `min(numbers), max(numbers)`. */
  method MinAndMax(numbers: set<int>) returns (lo: int, hi: int)
    requires numbers != {}
    ensures lo in numbers && hi in numbers
    ensures forall n :: n in numbers ==> lo <= n <= hi
  {
    ghost var some := ElementOf(numbers);
    var x :| x in numbers;
    lo, hi := x, x;
    var rest := numbers - {x};
    while rest != {}
      invariant rest <= numbers && lo in numbers && hi in numbers
      invariant forall n :: n in numbers - rest ==> lo <= n <= hi
      decreases rest
    {
      ghost var next := ElementOf(rest);
      var y :| y in rest;
      if y < lo {
        lo := y;
      }
      if y > hi {
        hi := y;
      }
      assert numbers - (rest - {y}) == (numbers - rest) + {y};
      rest := rest - {y};
    }
    assert numbers - rest == numbers;
  }

  // ---------------------------------------------------------------------
  // One `scrape` run

  /** The numbers stored for a year ... */
  function ExistingIn(rows: map<Key, Row>, year: int): (r: set<int>)
    ensures forall n :: n in r <==> (year, n) in rows
  {
    var r := set k | k in rows && k.0 == year :: k.1;
    assert forall n :: (year, n) in rows ==> (year, n).1 in r;
    r
  }

  /** ... and those among them that are open with `Last_update >= cutoff`. */
  function StaleIn(rows: map<Key, Row>, year: int, cutoff: string): (r: set<int>)
    ensures forall n :: n in r <==>
      (year, n) in rows && rows[(year, n)].arquivado == No && LexLe(cutoff, rows[(year, n)].lastUpdate)
  {
    var r := set k | k in rows && k.0 == year && rows[k].arquivado == No && LexLe(cutoff, rows[k].lastUpdate) :: k.1;
    assert forall n :: ((year, n) in rows && rows[(year, n)].arquivado == No
      && LexLe(cutoff, rows[(year, n)].lastUpdate)) ==> (year, n).1 in r;
    r
  }

  /** Where a year's bound comes from: the binary search for the current
      year, the configured bound for any other. */
  ghost predicate BoundFor(currentYear: int, oracle: (int, int) -> bool, hardcoded: map<int, int>, year: int, bound: Option<int>) {
    if year == currentYear then bound.Some? && IsFrontier((n: int) => oracle(year, n), bound.value)
    else bound == (if year in hardcoded then Some(hardcoded[year]) else None)
  }

  /** What a year with bound `bound` would schedule, read from `rows`. */
  function Planned(rows: map<Key, Row>, year: int, bound: int, cutoff: string, force: bool): set<int> {
    WorkSet(bound, ExistingIn(rows, year), StaleIn(rows, year, cutoff), force)
  }

  /** `plan` is the ascending, non-empty listing of what the year schedules. */
  ghost predicate ListsPlan(plan: seq<int>, rows: map<Key, Row>, year: int, bound: Option<int>, cutoff: string, force: bool) {
    bound.Some? && bound.value != 0 && plan != [] && StrictlySortedBy(plan, IntLess)
    && forall n :: n in plan <==> n in Planned(rows, year, bound.value, cutoff, force)
  }

  /** The year is passed over: no bound, a bound of 0, or nothing to do. */
  ghost predicate SkippedYear(rows: map<Key, Row>, year: int, bound: Option<int>, cutoff: string, force: bool) {
    bound.None? || bound.value == 0 || Planned(rows, year, bound.value, cutoff, force) == {}
  }

  /** The key was written in this run. */
  ghost predicate IsScheduled(scheduled: seq<(int, seq<int>)>, k: Key) {
    exists i :: 0 <= i < |scheduled| && scheduled[i].0 == k.0 && k.1 in scheduled[i].1
  }

  /** `rows` is `start` with `written(k)` stored under every scheduled key. */
  ghost predicate Reflects(rows: map<Key, Row>, start: map<Key, Row>, scheduled: seq<(int, seq<int>)>, written: Key -> Row) {
    (forall k :: k in rows <==> k in start || IsScheduled(scheduled, k))
    && forall k :: k in rows ==> rows[k] == if IsScheduled(scheduled, k) then written(k) else start[k]
  }

  /** The bound and the schedule of one year, and the writes of its results. */
  method ScrapeYear(store: ProtocolStore, year: int, currentYear: int, oracle: (int, int) -> bool, hardcoded: map<int, int>,
                    force: bool, fetch: (int, int) -> FetchAttempt, today: Date)
    returns (bound: Option<int>, plan: seq<int>)
    requires ValidDate(today) && Ordinal(today) > StaleWindowDays
    modifies store
    ensures BoundFor(currentYear, oracle, hardcoded, year, bound)
    ensures plan == [] ==> SkippedYear(old(store.rows), year, bound, FormatDate(DaysBefore(today, StaleWindowDays)), force)
    ensures plan != [] ==> ListsPlan(plan, old(store.rows), year, bound, FormatDate(DaysBefore(today, StaleWindowDays)), force)
    ensures store.rows == Ingested(old(store.rows), year, plan, Written(fetch, today))
  {
    if year == currentYear {
      var latest, _ := FindLatestProtocolNumber((n: int) => oracle(year, n));
      bound := Some(latest);
    } else if year in hardcoded {
      bound := Some(hardcoded[year]);
    } else {
      bound := None;
    }
    if bound.None? || bound.value == 0 {
      return bound, [];
    }
    var existing := store.GetExistingProtocols(year);
    var stale := store.GetProtocolsToUpdate(year, today, StaleWindowDays);
    var cutoff := FormatDate(DaysBefore(today, StaleWindowDays));
    assert forall n :: n in existing <==> n in ExistingIn(store.rows, year);
    assert existing == ExistingIn(store.rows, year);
    assert forall n :: n in stale <==> n in StaleIn(store.rows, year, cutoff);
    assert stale == StaleIn(store.rows, year, cutoff);
    plan := PlanWork(bound.value, existing, stale, force);
    if plan == [] {
      var work := Planned(store.rows, year, bound.value, cutoff, force);
      assert forall n :: n !in work;
      assert work == {};
    } else {
      IngestYear(store, year, plan, fetch, today);
    }
  }

  lemma IsScheduledSnoc(scheduled: seq<(int, seq<int>)>, year: int, plan: seq<int>, k: Key)
    ensures IsScheduled(scheduled + [(year, plan)], k) <==> IsScheduled(scheduled, k) || (k.0 == year && k.1 in plan)
  {
    var s := scheduled + [(year, plan)];
    if IsScheduled(scheduled, k) {
      var i :| 0 <= i < |scheduled| && scheduled[i].0 == k.0 && k.1 in scheduled[i].1;
      assert s[i] == scheduled[i];
    }
    if k.0 == year && k.1 in plan {
      assert s[|scheduled|] == (year, plan);
    }
    if IsScheduled(s, k) {
      var i :| 0 <= i < |s| && s[i].0 == k.0 && k.1 in s[i].1;
      if i < |scheduled| {
        assert s[i] == scheduled[i];
      }
    }
  }

  /** Writing one more year keeps the table in step with the schedule. */
  lemma ReflectsSnoc(rows: map<Key, Row>, start: map<Key, Row>, scheduled: seq<(int, seq<int>)>, year: int, plan: seq<int>, written: Key -> Row)
    requires Reflects(rows, start, scheduled, written)
    ensures Reflects(Ingested(rows, year, plan, written), start, scheduled + [(year, plan)], written)
  {
    var after := Ingested(rows, year, plan, written);
    var s := scheduled + [(year, plan)];
    forall k
      ensures k in after <==> k in start || IsScheduled(s, k)
      ensures k in after ==> after[k] == if IsScheduled(s, k) then written(k) else start[k]
    {
      IngestedLookup(rows, year, plan, written, k);
      IsScheduledSnoc(scheduled, year, plan, k);
    }
  }

  /** The year about to be processed has not been touched yet: its stored
      and stale numbers are those of the table the run started from. */
  lemma UntouchedYear(rows: map<Key, Row>, start: map<Key, Row>, scheduled: seq<(int, seq<int>)>, written: Key -> Row,
                      picked: seq<int>, years: seq<int>, j: int, cutoff: string)
    requires 0 <= j < |years|
    requires forall a, b :: 0 <= a < b < |years| ==> years[a] != years[b]
    requires |picked| == |scheduled|
    requires forall i :: 0 <= i < |picked| ==> 0 <= picked[i] < j && scheduled[i].0 == years[picked[i]]
    requires Reflects(rows, start, scheduled, written)
    ensures ExistingIn(rows, years[j]) == ExistingIn(start, years[j])
    ensures StaleIn(rows, years[j], cutoff) == StaleIn(start, years[j], cutoff)
  {
    var y := years[j];
    forall k: Key | k.0 == y
      ensures !IsScheduled(scheduled, k)
    {
      forall i | 0 <= i < |scheduled|
        ensures scheduled[i].0 != y
      {
        assert picked[i] < j;
      }
    }
    var a, b := ExistingIn(rows, y), ExistingIn(start, y);
    assert forall n :: n in a <==> n in b;
    var c, d := StaleIn(rows, y, cutoff), StaleIn(start, y, cutoff);
    assert forall n :: n in c <==> n in d;
  }

  /** The first `j` years have been handled: `bounds[j']` is the bound of
      `years[j']`, `scheduled[i]` lists what year `years[picked[i]]`
      schedules, in the order of `years`, and every year left out of
      `picked` was passed over. */
  ghost predicate ScheduleSoFar(years: seq<int>, j: int, bounds: seq<Option<int>>, picked: seq<int>, scheduled: seq<(int, seq<int>)>,
                                start: map<Key, Row>, cutoff: string, force: bool,
                                currentYear: int, oracle: (int, int) -> bool, hardcoded: map<int, int>) {
    0 <= j <= |years| && |bounds| == j && |picked| == |scheduled|
    && (forall j' :: 0 <= j' < j ==> BoundFor(currentYear, oracle, hardcoded, years[j'], bounds[j']))
    && (forall i :: 0 <= i < |picked| ==> 0 <= picked[i] < j && scheduled[i].0 == years[picked[i]])
    && (forall i, i' :: 0 <= i < i' < |picked| ==> picked[i] < picked[i'])
    && (forall i :: 0 <= i < |scheduled| ==> ListsPlan(scheduled[i].1, start, scheduled[i].0, bounds[picked[i]], cutoff, force))
    && (forall j' :: 0 <= j' < j && j' !in picked ==> SkippedYear(start, years[j'], bounds[j'], cutoff, force))
  }

  /** Handling year `years[j]` extends the record by one year. */
  lemma ScheduleStep(years: seq<int>, j: int, bounds: seq<Option<int>>, picked: seq<int>, scheduled: seq<(int, seq<int>)>,
                     start: map<Key, Row>, cutoff: string, force: bool,
                     currentYear: int, oracle: (int, int) -> bool, hardcoded: map<int, int>, bound: Option<int>, plan: seq<int>)
    requires ScheduleSoFar(years, j, bounds, picked, scheduled, start, cutoff, force, currentYear, oracle, hardcoded)
    requires j < |years|
    requires BoundFor(currentYear, oracle, hardcoded, years[j], bound)
    requires plan == [] ==> SkippedYear(start, years[j], bound, cutoff, force)
    requires plan != [] ==> ListsPlan(plan, start, years[j], bound, cutoff, force)
    ensures plan != [] ==>
      ScheduleSoFar(years, j + 1, bounds + [bound], picked + [j], scheduled + [(years[j], plan)], start, cutoff, force, currentYear, oracle, hardcoded)
    ensures plan == [] ==>
      ScheduleSoFar(years, j + 1, bounds + [bound], picked, scheduled, start, cutoff, force, currentYear, oracle, hardcoded)
  {
    var bs := bounds + [bound];
    assert forall j' :: 0 <= j' < j ==> bs[j'] == bounds[j'];
    if plan != [] {
      var ps, ss := picked + [j], scheduled + [(years[j], plan)];
      assert forall i :: 0 <= i < |picked| ==> ps[i] == picked[i] && ss[i] == scheduled[i];
      assert forall j' :: 0 <= j' < j && j' !in ps ==> j' !in picked;
    }
  }

  /** A year whose stored and stale numbers are those of the starting
      table has the same schedule, read from either. */
  lemma PlanFromStart(rows: map<Key, Row>, start: map<Key, Row>, year: int, bound: Option<int>, plan: seq<int>,
                      cutoff: string, force: bool)
    requires ExistingIn(rows, year) == ExistingIn(start, year)
    requires StaleIn(rows, year, cutoff) == StaleIn(start, year, cutoff)
    requires plan == [] ==> SkippedYear(rows, year, bound, cutoff, force)
    requires plan != [] ==> ListsPlan(plan, rows, year, bound, cutoff, force)
    ensures plan == [] ==> SkippedYear(start, year, bound, cutoff, force)
    ensures plan != [] ==> ListsPlan(plan, start, year, bound, cutoff, force)
  {
    if bound.Some? {
      assert Planned(rows, year, bound.value, cutoff, force) == Planned(start, year, bound.value, cutoff, force);
    }
  }

  /** Before the first year, nothing is recorded and nothing written. */
  lemma NothingScheduledYet(years: seq<int>, start: map<Key, Row>, cutoff: string, force: bool,
                            currentYear: int, oracle: (int, int) -> bool, hardcoded: map<int, int>, written: Key -> Row)
    ensures ScheduleSoFar(years, 0, [], [], [], start, cutoff, force, currentYear, oracle, hardcoded)
    ensures Reflects(start, start, [], written)
  {
  }

  /** One pass of the loop over the years: year `years[j]` is handled and
      the record of the run grows by that year. */
  method ScrapeNextYear(store: ProtocolStore, years: seq<int>, j: int, scheduled: seq<(int, seq<int>)>,
                        ghost bounds: seq<Option<int>>, ghost picked: seq<int>, ghost start: map<Key, Row>,
                        currentYear: int, oracle: (int, int) -> bool, hardcoded: map<int, int>, force: bool,
                        fetch: (int, int) -> FetchAttempt, today: Date)
    returns (scheduled': seq<(int, seq<int>)>, ghost bounds': seq<Option<int>>, ghost picked': seq<int>)
    requires ValidDate(today) && Ordinal(today) > StaleWindowDays
    requires forall a, b :: 0 <= a < b < |years| ==> years[a] != years[b]
    requires 0 <= j < |years|
    requires ScheduleSoFar(years, j, bounds, picked, scheduled, start, FormatDate(DaysBefore(today, StaleWindowDays)), force,
                           currentYear, oracle, hardcoded)
    requires Reflects(store.rows, start, scheduled, Written(fetch, today))
    modifies store
    ensures ScheduleSoFar(years, j + 1, bounds', picked', scheduled', start, FormatDate(DaysBefore(today, StaleWindowDays)), force,
                          currentYear, oracle, hardcoded)
    ensures Reflects(store.rows, start, scheduled', Written(fetch, today))
  {
    var cutoff := FormatDate(DaysBefore(today, StaleWindowDays));
    var year := years[j];
    UntouchedYear(store.rows, start, scheduled, Written(fetch, today), picked, years, j, cutoff);
    ghost var before := store.rows;
    var bound, plan := ScrapeYear(store, year, currentYear, oracle, hardcoded, force, fetch, today);
    PlanFromStart(before, start, year, bound, plan, cutoff, force);
    ScheduleStep(years, j, bounds, picked, scheduled, start, cutoff, force, currentYear, oracle, hardcoded, bound, plan);
    bounds' := bounds + [bound];
    if plan != [] {
      ReflectsSnoc(before, start, scheduled, year, plan, Written(fetch, today));
      scheduled' := scheduled + [(year, plan)];
      picked' := picked + [j];
    } else {
      scheduled', picked' := scheduled, picked;
    }
  }

  /** The loop over `years` (the `--year` argument, or the keys of the
      configured bounds, so no year twice): every year's bound and
      schedule, and every result written. `bounds[j]` is the bound of
      `years[j]`, and `scheduled[i]` is the schedule of
      `years[picked[i]]`; all schedules are read from the table as it was
      when the run started. */
  method ScrapeYears(store: ProtocolStore, years: seq<int>, currentYear: int, oracle: (int, int) -> bool,
                     hardcoded: map<int, int>, force: bool, fetch: (int, int) -> FetchAttempt, today: Date)
    returns (scheduled: seq<(int, seq<int>)>, ghost bounds: seq<Option<int>>, ghost picked: seq<int>)
    requires ValidDate(today) && Ordinal(today) > StaleWindowDays
    requires forall i, j :: 0 <= i < j < |years| ==> years[i] != years[j]
    modifies store
    ensures ScheduleSoFar(years, |years|, bounds, picked, scheduled, old(store.rows),
                          FormatDate(DaysBefore(today, StaleWindowDays)), force, currentYear, oracle, hardcoded)
    ensures Reflects(store.rows, old(store.rows), scheduled, Written(fetch, today))
  {
    scheduled, bounds, picked := [], [], [];
    var cutoff := FormatDate(DaysBefore(today, StaleWindowDays));
    ghost var start := store.rows;
    ghost var written := Written(fetch, today);
    NothingScheduledYet(years, start, cutoff, force, currentYear, oracle, hardcoded, written);
    var j := 0;
    while j < |years|
      invariant 0 <= j <= |years|
      invariant ScheduleSoFar(years, j, bounds, picked, scheduled, start, cutoff, force, currentYear, oracle, hardcoded)
      invariant Reflects(store.rows, start, scheduled, written)
    {
      scheduled, bounds, picked := ScrapeNextYear(store, years, j, scheduled, bounds, picked, start,
                                                  currentYear, oracle, hardcoded, force, fetch, today);
      j := j + 1;
    }
  }

  /** The `scrape` action: the keyword list built from the configured
      names and families (`LISTA_NORMALIZADA`), the loop over the years,
      then the text of the report on what was written. */
  method RunScrape(db: UnicodeDb, store: ProtocolStore, years: seq<int>, currentYear: int, oracle: (int, int) -> bool,
                   hardcoded: map<int, int>, force: bool, fetch: (int, int) -> FetchAttempt, names: seq<string>, fams: Families,
                   today: Date, timestamp: string)
    returns (scheduled: seq<(int, seq<int>)>, report: string, ghost bounds: seq<Option<int>>, ghost picked: seq<int>)
    requires ValidDate(today) && Ordinal(today) > StaleWindowDays
    requires forall i, j :: 0 <= i < j < |years| ==> years[i] != years[j]
    modifies store
    ensures ScheduleSoFar(years, |years|, bounds, picked, scheduled, old(store.rows),
                          FormatDate(DaysBefore(today, StaleWindowDays)), force, currentYear, oracle, hardcoded)
    ensures Reflects(store.rows, old(store.rows), scheduled, Written(fetch, today))
    ensures report == RenderReport(ReportMatches(db, store.rows, scheduled, ExpandedKeywords(db, names, fams)), timestamp)
  {
    var keywords := GetListaNormalizada(db, names, fams);
    scheduled, bounds, picked := ScrapeYears(store, years, currentYear, oracle, hardcoded, force, fetch, today);
    var found := CollectMatches(db, store, scheduled, keywords);
    report := RenderReport(found, timestamp);
  }
}

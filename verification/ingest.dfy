/** `fetchAllRssFeeds` (rssService.ts): the sources are fetched one after
    the other; every source's entries are de-duplicated by id against all
    ids seen so far (first seen wins); a failing source is reported and
    skipped; finally the merged list is sorted newest first by a date key.

    The fetches themselves are not modelled: each source's outcome is an
    input, aligned position by position with the sources. The optional
    per-source callback is modelled as the sequence of reports it would
    receive, in call order. */
module Ingest {
  import opened Wrappers
  import opened Text
  import opened Seqs
  import opened Sorting
  import opened Articles

  /** What `fetchRssFeed` did for one source: the parsed entries, or the
      message of the error it threw. */
  datatype FetchOutcome = Fetched(entries: seq<RawArticle>) | Failed(message: string)

  /** One call of `onSourceProcessed(name, articles, error?)`. */
  datatype SourceReport = SourceReport(name: string, articles: seq<RawArticle>, error: Option<string>)

  /** The merged articles and the callback calls, in order. */
  datatype IngestResult = IngestResult(articles: seq<RawArticle>, reports: seq<SourceReport>)

  /** Host name of the CORS proxy the fetches go through. */
  const ProxyHost := "api.allorigins.win"

  const FetchFailure := "failed to fetch"

  function IdOf(a: RawArticle): string { a.id }

  /** The ids of a list of articles. */
  function Ids(xs: seq<RawArticle>): (r: set<string>)
    ensures forall i :: 0 <= i < |xs| ==> xs[i].id in r
    ensures forall id | id in r :: exists i :: 0 <= i < |xs| && xs[i].id == id
  {
    if xs == [] then {} else {xs[0].id} + Ids(xs[1..])
  }

  lemma {:induction false} IdsConcat(xs: seq<RawArticle>, ys: seq<RawArticle>)
    ensures Ids(xs + ys) == Ids(xs) + Ids(ys)
  {
    if xs == [] {
      assert xs + ys == ys;
    } else {
      assert (xs + ys)[1..] == xs[1..] + ys;
      IdsConcat(xs[1..], ys);
    }
  }

  /** The message reported for a failed source: a "failed to fetch" error
      (in any letter case) is replaced by a network-error explanation that
      names the source, the proxy host and the feed URL. */
  function ErrorMessage(source: RssSource, message: string): (r: string)
    ensures Contains(ToLower(message), FetchFailure) ==>
      StartsWith(r, "Network error: Failed to fetch from " + source.name + ".")
      && |r| >= |source.url| && r[|r| - |source.url|..] == source.url
    ensures Contains(ToLower(message), FetchFailure) ==> Contains(r, "(" + ProxyHost + ")")
    ensures !Contains(ToLower(message), FetchFailure) ==> r == message
  {
    if Contains(ToLower(message), FetchFailure) then
      var head := "Network error: Failed to fetch from " + source.name + ".";
      var lead := " The RSS server might be down, blocking requests, or the CORS proxy ";
      var proxy := "(" + ProxyHost + ")";
      var tail := " might be unable to reach it. URL: ";
      var r := head + lead + proxy + tail + source.url;
      assert r[..|head|] == head;
      assert r[|head + lead|..][..|proxy|] == proxy;
      ContainsAt(r, proxy, |head + lead|);
      r
    else message
  }

  /** The filter with side effect on the shared id set: an entry survives
      when its id is neither in `seen` nor carried by an earlier entry. */
  function Survivors(seen: set<string>, xs: seq<RawArticle>): (r: seq<RawArticle>)
    ensures IsSubseq(r, xs)
    ensures forall i :: 0 <= i < |r| ==> r[i].id !in seen
    decreases |xs|
  {
    if xs == [] then []
    else if xs[0].id in seen then
      var rest := Survivors(seen, xs[1..]);
      SubseqOfTail(rest, xs);
      rest
    else
      var rest := Survivors(seen + {xs[0].id}, xs[1..]);
      assert ([xs[0]] + rest)[1..] == rest;
      [xs[0]] + rest
  }

  /** Survivors carry pairwise distinct ids. */
  lemma {:induction false} SurvivorsDistinct(seen: set<string>, xs: seq<RawArticle>)
    ensures DistinctBy(Survivors(seen, xs), IdOf)
    decreases |xs|
  {
    if xs != [] {
      if xs[0].id in seen {
        SurvivorsDistinct(seen, xs[1..]);
      } else {
        var rest := Survivors(seen + {xs[0].id}, xs[1..]);
        SurvivorsDistinct(seen + {xs[0].id}, xs[1..]);
        var r := [xs[0]] + rest;
        forall i, j | 0 <= i < j < |r| ensures IdOf(r[i]) != IdOf(r[j]) {
          if i > 0 {
            assert r[i] == rest[i - 1] && r[j] == rest[j - 1];
          } else {
            assert r[j] == rest[j - 1];
          }
        }
      }
    }
  }

  /** Running the filter over `xs + ys` is running it over `xs`, then over
      `ys` with every id of `xs` marked as seen. */
  lemma {:induction false} SurvivorsConcat(seen: set<string>, xs: seq<RawArticle>, ys: seq<RawArticle>)
    ensures Survivors(seen, xs + ys) == Survivors(seen, xs) + Survivors(seen + Ids(xs), ys)
    decreases |xs|
  {
    if xs == [] {
      assert xs + ys == ys;
      assert seen + Ids(xs) == seen;
    } else {
      assert (xs + ys)[0] == xs[0];
      assert (xs + ys)[1..] == xs[1..] + ys;
      if xs[0].id in seen {
        SurvivorsConcat(seen, xs[1..], ys);
        assert seen + Ids(xs[1..]) == seen + Ids(xs);
      } else {
        SurvivorsConcat(seen + {xs[0].id}, xs[1..], ys);
        assert seen + {xs[0].id} + Ids(xs[1..]) == seen + Ids(xs);
      }
    }
  }

  /** An entry appended at the end survives exactly when no earlier entry
      and no already-seen id carries its id. */
  lemma SurvivorsSnoc(seen: set<string>, xs: seq<RawArticle>, x: RawArticle)
    ensures x.id in seen + Ids(xs) ==> Survivors(seen, xs + [x]) == Survivors(seen, xs)
    ensures x.id !in seen + Ids(xs) ==> Survivors(seen, xs + [x]) == Survivors(seen, xs) + [x]
  {
    SurvivorsConcat(seen, xs, [x]);
    assert [x][1..] == [];
  }

  /** The concatenation, in source order, of the entries of every source
      whose fetch succeeded. */
  function Delivered(outcomes: seq<FetchOutcome>): (r: seq<RawArticle>)
    ensures forall a | a in r :: exists i :: 0 <= i < |outcomes| && outcomes[i].Fetched? && a in outcomes[i].entries
  {
    if outcomes == [] then []
    else
      var rest := Delivered(outcomes[1..]);
      assert forall a | a in rest :: exists i :: 1 <= i < |outcomes| && outcomes[i].Fetched? && a in outcomes[i].entries by {
        forall a | a in rest ensures exists i :: 1 <= i < |outcomes| && outcomes[i].Fetched? && a in outcomes[i].entries {
          var k :| 0 <= k < |outcomes[1..]| && outcomes[1..][k].Fetched? && a in outcomes[1..][k].entries;
          assert outcomes[k + 1] == outcomes[1..][k];
        }
      }
      match outcomes[0]
      case Fetched(xs) => xs + rest
      case Failed(_) => rest
  }

  lemma DeliveredSnoc(outcomes: seq<FetchOutcome>, o: FetchOutcome)
    ensures Delivered(outcomes + [o]) == Delivered(outcomes) + (if o.Fetched? then o.entries else [])
  {
    if outcomes == [] {
      assert [o][1..] == [];
    } else {
      assert (outcomes + [o])[1..] == outcomes[1..] + [o];
      DeliveredSnoc(outcomes[1..], o);
    }
  }

  /** The report the loop body sends for one source, given the ids seen
      so far. */
  function Step(source: RssSource, outcome: FetchOutcome, seen: set<string>): (r: SourceReport)
    ensures r.name == source.name
    ensures outcome.Failed? ==> r.articles == [] && r.error.Some?
    ensures outcome.Fetched? ==> r.error.None? && r.articles == Survivors(seen, outcome.entries)
  {
    match outcome
    case Fetched(xs) => SourceReport(source.name, Survivors(seen, xs), None)
    case Failed(m) => SourceReport(source.name, [], Some(ErrorMessage(source, m)))
  }

  /** The ids seen after the loop body for one source: a failed source adds
      none, a successful one adds all of its ids, kept or not. */
  function SeenAfter(outcome: FetchOutcome, seen: set<string>): set<string> {
    match outcome
    case Fetched(xs) => seen + Ids(xs)
    case Failed(_) => seen
  }

  /** The `for … of sources` loop, from a given set of seen ids. */
  function Fold(sources: seq<RssSource>, outcomes: seq<FetchOutcome>, seen: set<string>): (r: IngestResult)
    requires |sources| == |outcomes|
    ensures |r.reports| == |sources|
    ensures forall i :: 0 <= i < |sources| ==> r.reports[i].name == sources[i].name
    ensures forall i :: 0 <= i < |r.articles| ==> r.articles[i].id !in seen
    decreases |sources|
  {
    if sources == [] then IngestResult([], [])
    else
      var report := Step(sources[0], outcomes[0], seen);
      var rest := Fold(sources[1..], outcomes[1..], SeenAfter(outcomes[0], seen));
      IngestResult(report.articles + rest.articles, [report] + rest.reports)
  }

  /** The merged list is the first-seen filter over everything delivered. */
  lemma {:induction false} FoldArticles(sources: seq<RssSource>, outcomes: seq<FetchOutcome>, seen: set<string>)
    requires |sources| == |outcomes|
    ensures Fold(sources, outcomes, seen).articles == Survivors(seen, Delivered(outcomes))
    decreases |sources|
  {
    if sources != [] {
      FoldArticles(sources[1..], outcomes[1..], SeenAfter(outcomes[0], seen));
      if outcomes[0].Fetched? {
        SurvivorsConcat(seen, outcomes[0].entries, Delivered(outcomes[1..]));
      }
    }
  }

  /** The ids seen when the loop reaches source `i`. */
  function SeenBefore(seen: set<string>, outcomes: seq<FetchOutcome>, i: nat): set<string>
    requires i <= |outcomes|
  {
    seen + Ids(Delivered(outcomes[..i]))
  }

  lemma SeenBeforeShift(seen: set<string>, outcomes: seq<FetchOutcome>, i: nat)
    requires 0 < i <= |outcomes|
    ensures SeenBefore(SeenAfter(outcomes[0], seen), outcomes[1..], i - 1)
         == SeenBefore(seen, outcomes, i)
  {
    assert outcomes[1..][..i - 1] == outcomes[1..i];
    assert outcomes[..i] == [outcomes[0]] + outcomes[1..i];
    if outcomes[0].Fetched? {
      IdsConcat(outcomes[0].entries, Delivered(outcomes[1..i]));
    }
  }

  /** Report `i` is what the loop body sends for source `i` given the ids
      of everything delivered before it. */
  lemma {:induction false} FoldReportIsStep(sources: seq<RssSource>, outcomes: seq<FetchOutcome>, seen: set<string>, i: nat)
    requires |sources| == |outcomes| && i < |sources|
    ensures Fold(sources, outcomes, seen).reports[i] == Step(sources[i], outcomes[i], SeenBefore(seen, outcomes, i))
    decreases i
  {
    if i == 0 {
      assert outcomes[..0] == [];
      assert SeenBefore(seen, outcomes, 0) == seen;
    } else {
      var rest := Fold(sources[1..], outcomes[1..], SeenAfter(outcomes[0], seen));
      assert Fold(sources, outcomes, seen).reports == [Step(sources[0], outcomes[0], seen)] + rest.reports;
      assert Fold(sources, outcomes, seen).reports[i] == rest.reports[i - 1];
      FoldReportIsStep(sources[1..], outcomes[1..], SeenAfter(outcomes[0], seen), i - 1);
      SeenBeforeShift(seen, outcomes, i);
      assert sources[1..][i - 1] == sources[i] && outcomes[1..][i - 1] == outcomes[i];
    }
  }

  /** The callback fires once per source, in source order. A failed source
      gets no articles and its (possibly relabelled) error message; a
      successful one gets exactly its entries whose ids no earlier
      delivered entry carried. */
  lemma FoldReports(sources: seq<RssSource>, outcomes: seq<FetchOutcome>, i: nat)
    requires |sources| == |outcomes| && i < |sources|
    ensures Fold(sources, outcomes, {}).reports[i].name == sources[i].name
    ensures outcomes[i].Failed? ==>
      Fold(sources, outcomes, {}).reports[i].articles == []
      && Fold(sources, outcomes, {}).reports[i].error == Some(ErrorMessage(sources[i], outcomes[i].message))
    ensures outcomes[i].Fetched? ==>
      Fold(sources, outcomes, {}).reports[i].error.None?
      && Fold(sources, outcomes, {}).reports[i].articles
         == Survivors(Ids(Delivered(outcomes[..i])), outcomes[i].entries)
  {
    FoldReportIsStep(sources, outcomes, {}, i);
    assert SeenBefore({}, outcomes, i) == Ids(Delivered(outcomes[..i]));
  }

  /** The merged list is the concatenation of what the reports carry. */
  lemma {:induction false} FoldIsReportsConcat(sources: seq<RssSource>, outcomes: seq<FetchOutcome>, seen: set<string>)
    requires |sources| == |outcomes|
    ensures Fold(sources, outcomes, seen).articles == ReportedArticles(Fold(sources, outcomes, seen).reports)
    decreases |sources|
  {
    if sources != [] {
      FoldIsReportsConcat(sources[1..], outcomes[1..], SeenAfter(outcomes[0], seen));
      var reports := Fold(sources, outcomes, seen).reports;
      assert reports[1..] == Fold(sources[1..], outcomes[1..], SeenAfter(outcomes[0], seen)).reports;
    }
  }

  function ReportedArticles(reports: seq<SourceReport>): seq<RawArticle> {
    if reports == [] then [] else reports[0].articles + ReportedArticles(reports[1..])
  }

  // ---------------------------------------------------------------------
  // The sort key.

  const MsPerDay := 86400000

  predicate IsLeapYear(y: int) {
    y % 4 == 0 && (y % 100 != 0 || y % 400 == 0)
  }

  function DaysInYear(y: int): int {
    if IsLeapYear(y) then 366 else 365
  }

  /** Days in month `m` (0 = January) of year `y`. */
  function DaysInMonth(y: int, m: int): int
    requires 0 <= m < 12
  {
    if m == 1 then (if IsLeapYear(y) then 29 else 28)
    else if m == 3 || m == 5 || m == 8 || m == 10 then 30
    else 31
  }

  /** Days from 1 January to the first of month `m` (0 = January). */
  function DaysBeforeMonth(y: int, m: int): (r: int)
    requires 0 <= m <= 12
    ensures 0 <= r <= DaysInYear(y)
    ensures m == 12 ==> r == DaysInYear(y)
  {
    [0, 31, 59, 90, 120, 151, 181, 212, 243, 273, 304, 334, 365][m]
    + (if m >= 2 && IsLeapYear(y) then 1 else 0)
  }

  /** ECMAScript DayFromYear: days from the epoch to 1 January of `y`.
      Dafny's `/` by a positive constant is the floor the standard uses. */
  function DayFromYear(y: int): int {
    365 * (y - 1970) + (y - 1969) / 4 - (y - 1901) / 100 + (y - 1601) / 400
  }

  /** `new Date(y, m, d)` maps years 0 to 99 to 1900 to 1999. */
  function FullYear(y: int): int {
    if 0 <= y <= 99 then 1900 + y else y
  }

  /** ECMAScript MakeDay for a year, a zero-based month that may overflow
      in either direction, and a day of the month that may too. */
  function MakeDay(y: int, m: int, d: int): int {
    var ym := y + m / 12;
    var mn := m % 12;
    DayFromYear(ym) + DaysBeforeMonth(ym, mn) + d - 1
  }

  /** A real calendar date: zero-based month, day within the month. */
  predicate IsCalendarDate(y: int, m: int, d: int) {
    0 <= m < 12 && 1 <= d <= DaysInMonth(y, m)
  }

  /** Lexicographic order on (year, month, day). */
  predicate CalendarBefore(y1: int, m1: int, d1: int, y2: int, m2: int, d2: int) {
    y1 < y2 || (y1 == y2 && (m1 < m2 || (m1 == m2 && d1 < d2)))
  }

  /** How the three floor quotients of DayFromYear move from `y` to `y + 1`. */
  lemma QuotientSteps(y: int)
    ensures (y - 1968) / 4 == (y - 1969) / 4 + (if y % 4 == 0 then 1 else 0)
    ensures (y - 1900) / 100 == (y - 1901) / 100 + (if y % 100 == 0 then 1 else 0)
    ensures (y - 1600) / 400 == (y - 1601) / 400 + (if y % 400 == 0 then 1 else 0)
  {
    assert (y - 1968) % 4 == y % 4;
    assert (y - 1900) % 100 == y % 100;
    assert (y - 1600) % 400 == y % 400;
  }

  /** A multiple of 400 is one of 100, and a multiple of 100 one of 4. */
  lemma DivisibilityChain(y: int)
    ensures y % 400 == 0 ==> y % 100 == 0
    ensures y % 100 == 0 ==> y % 4 == 0
  {
    if y % 400 == 0 {
      var k := y / 400;
      assert y == 100 * (4 * k);
    }
    if y % 100 == 0 {
      var k := y / 100;
      assert y == 4 * (25 * k);
    }
  }

  lemma DayFromYearStep(y: int)
    ensures DayFromYear(y + 1) == DayFromYear(y) + DaysInYear(y)
  {
    QuotientSteps(y);
    DivisibilityChain(y);
    var a := if y % 4 == 0 then 1 else 0;
    var b := if y % 100 == 0 then 1 else 0;
    var c := if y % 400 == 0 then 1 else 0;
    assert DayFromYear(y + 1) == DayFromYear(y) + 365 + a - b + c;
    assert DaysInYear(y) == 365 + a - b + c;
  }

  /** Every year starts after the whole of any earlier year. */
  lemma {:induction false} DayFromYearIncreasing(y1: int, y2: int)
    requires y1 < y2
    ensures DayFromYear(y1) + DaysInYear(y1) <= DayFromYear(y2)
    decreases y2 - y1
  {
    DayFromYearStep(y1);
    if y1 + 1 < y2 {
      DayFromYearIncreasing(y1 + 1, y2);
    }
  }

  lemma DaysBeforeMonthIncreasing(y: int, m1: int, m2: int)
    requires 0 <= m1 < m2 <= 12
    ensures DaysBeforeMonth(y, m1) + DaysInMonth(y, m1) <= DaysBeforeMonth(y, m2)
  {
  }

  /** Within a year, the day number is the year's first day plus the
      days of the earlier months. */
  lemma MakeDayOfDate(y: int, m: int, d: int)
    requires 0 <= m < 12
    ensures MakeDay(y, m, d) == DayFromYear(y) + DaysBeforeMonth(y, m) + d - 1
  {
    assert m / 12 == 0 && m % 12 == m;
  }

  /** The day of a real date falls within its year. */
  lemma DayOfYearBounds(y: int, m: int, d: int)
    requires IsCalendarDate(y, m, d)
    ensures 0 <= DaysBeforeMonth(y, m) + d - 1 < DaysInYear(y)
  {
    DaysBeforeMonthIncreasing(y, m, 12);
  }

  /** The earlier of two real dates has the smaller day number. */
  lemma CalendarBeforeDay(y1: int, m1: int, d1: int, y2: int, m2: int, d2: int)
    requires IsCalendarDate(y1, m1, d1) && IsCalendarDate(y2, m2, d2)
    requires CalendarBefore(y1, m1, d1, y2, m2, d2)
    ensures MakeDay(y1, m1, d1) < MakeDay(y2, m2, d2)
  {
    MakeDayOfDate(y1, m1, d1);
    MakeDayOfDate(y2, m2, d2);
    if y1 < y2 {
      DayFromYearIncreasing(y1, y2);
      DayOfYearBounds(y1, m1, d1);
      DayOfYearBounds(y2, m2, d2);
    } else if m1 < m2 {
      DaysBeforeMonthIncreasing(y1, m1, m2);
    }
  }

  /** For real calendar dates the day number follows calendar order, in
      both directions. */
  lemma CalendarOrder(y1: int, m1: int, d1: int, y2: int, m2: int, d2: int)
    requires IsCalendarDate(y1, m1, d1) && IsCalendarDate(y2, m2, d2)
    ensures MakeDay(y1, m1, d1) < MakeDay(y2, m2, d2) <==> CalendarBefore(y1, m1, d1, y2, m2, d2)
    ensures MakeDay(y1, m1, d1) == MakeDay(y2, m2, d2) <==> (y1, m1, d1) == (y2, m2, d2)
  {
    if CalendarBefore(y1, m1, d1, y2, m2, d2) {
      CalendarBeforeDay(y1, m1, d1, y2, m2, d2);
    } else if CalendarBefore(y2, m2, d2, y1, m1, d1) {
      CalendarBeforeDay(y2, m2, d2, y1, m1, d1);
    } else {
      assert (y1, m1, d1) == (y2, m2, d2);
    }
  }

  /** `/^\d{2}\/\d{2}\/\d{4}$/`. */
  predicate IsDayMonthYear(s: string) {
    |s| == 10 && s[2] == '/' && s[5] == '/'
    && AllDigits(s[..2]) && AllDigits(s[3..5]) && AllDigits(s[6..])
  }

  /** `new Date(yyyy, mm - 1, dd)` reads the year (0 to 99 meaning 1900
      to 1999), the zero-based month and the day of the month. */
  function YearField(s: string): int
    requires IsDayMonthYear(s)
  {
    FullYear(DigitsValue(s[6..]))
  }

  function MonthField(s: string): int
    requires IsDayMonthYear(s)
  {
    DigitsValue(s[3..5]) - 1
  }

  function DayField(s: string): int
    requires IsDayMonthYear(s)
  {
    DigitsValue(s[..2])
  }

  /** The `parseDate` helper of the sort: 0 for a missing or empty date,
      the calendar time of a `DD/MM/YYYY` string, otherwise what the
      generic `Date` parser gives, or 0 when it gives NaN. */
  function DateKey(pubDate: Option<string>, parse: string -> Option<int>): (r: int)
    ensures pubDate.None? || pubDate == Some("") ==> r == 0
    ensures pubDate.Some? && IsDayMonthYear(pubDate.value) ==>
      r == MakeDay(YearField(pubDate.value), MonthField(pubDate.value), DayField(pubDate.value)) * MsPerDay
    ensures pubDate.Some? && pubDate.value != "" && !IsDayMonthYear(pubDate.value) ==>
      r == parse(pubDate.value).GetOr(0)
  {
    match pubDate
    case None => 0
    case Some(s) =>
      if s == "" then 0
      else if IsDayMonthYear(s) then
        MakeDay(YearField(s), MonthField(s), DayField(s)) * MsPerDay
      else parse(s).GetOr(0)
  }

  /** Two `DD/MM/YYYY` strings naming real dates are keyed in calendar
      order: an earlier date gets a smaller key, the same date the same
      key. */
  lemma DayMonthYearOrder(s1: string, s2: string, parse: string -> Option<int>)
    requires IsDayMonthYear(s1) && IsCalendarDate(YearField(s1), MonthField(s1), DayField(s1))
    requires IsDayMonthYear(s2) && IsCalendarDate(YearField(s2), MonthField(s2), DayField(s2))
    ensures DateKey(Some(s1), parse) < DateKey(Some(s2), parse)
        <==> CalendarBefore(YearField(s1), MonthField(s1), DayField(s1), YearField(s2), MonthField(s2), DayField(s2))
    ensures DateKey(Some(s1), parse) == DateKey(Some(s2), parse)
        <==> (YearField(s1), MonthField(s1), DayField(s1)) == (YearField(s2), MonthField(s2), DayField(s2))
  {
    CalendarOrder(YearField(s1), MonthField(s1), DayField(s1), YearField(s2), MonthField(s2), DayField(s2));
  }

  /** `compare(a, b) = key(b) - key(a)` is at most 0: `a` may come first. */
  function NewerFirst(parse: string -> Option<int>): (RawArticle, RawArticle) -> bool {
    (a: RawArticle, b: RawArticle) => DateKey(b.pubDate, parse) <= DateKey(a.pubDate, parse)
  }

  lemma NewerFirstIsPreorder(parse: string -> Option<int>)
    ensures TotalPreorder(NewerFirst(parse))
  {
  }

  /** `fetchAllRssFeeds`: the merged articles sorted newest first, and the
      callback calls. */
  function FetchAll(sources: seq<RssSource>, outcomes: seq<FetchOutcome>, parse: string -> Option<int>): (r: IngestResult)
    requires |sources| == |outcomes|
    ensures r.reports == Fold(sources, outcomes, {}).reports
    ensures multiset(r.articles) == multiset(Survivors({}, Delivered(outcomes)))
    ensures SortedBy(r.articles, NewerFirst(parse))
    ensures DistinctBy(r.articles, IdOf)
    ensures forall i, j :: 0 <= i < j < |r.articles| ==>
      DateKey(r.articles[i].pubDate, parse) >= DateKey(r.articles[j].pubDate, parse)
  {
    var merged := Fold(sources, outcomes, {});
    FoldArticles(sources, outcomes, {});
    SurvivorsDistinct({}, Delivered(outcomes));
    SortKeepsDistinct(merged.articles, NewerFirst(parse), IdOf);
    SortSorted(merged.articles, NewerFirst(parse));
    IngestResult(Sort(merged.articles, NewerFirst(parse)), merged.reports)
  }
}

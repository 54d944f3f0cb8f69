/** The dashboard's data logic (App-1.tsx): the content-type test used to
    vet a new feed, GeoJSON export, the remaining-time label, the size of
    an analysis batch, source management, the auto-refresh merge and the
    analysis batch itself. React state, timers and the progress callback
    are not modelled; each handler becomes a function from the old state
    to the new one. */
module Dashboard {
  import opened Wrappers
  import opened Text
  import opened Seqs
  import opened Articles
  import Ingest

  // ---------------------------------------------------------------------
  // Content type of a feed URL.

  /** The media types accepted as a feed. */
  const FeedTypes: seq<string> := [
    "application/rss+xml",
    "application/atom+xml",
    "application/xml",
    "text/xml",
    "application/x-rss+xml"
  ]

  /** The media type of a `Content-Type` header: lower-cased, parameters
      after the first `;` dropped, trimmed. */
  function MediaType(header: string): string {
    Trim(BeforeFirst(ToLower(header), ';'))
  }

  /** `isValidRssContentType`: false for a missing or empty header,
      otherwise whether its media type is one of the feed types. */
  function IsValidRssContentType(header: Option<string>): (r: bool)
    ensures header.None? || header == Some("") ==> !r
    ensures header.Some? && header.value != "" ==> (r <==> MediaType(header.value) in FeedTypes)
  {
    header.Some? && header.value != "" && MediaType(header.value) in FeedTypes
  }

  lemma LowerCharIdempotent(c: char)
    ensures LowerChar(LowerChar(c)) == LowerChar(c)
  {
  }

  lemma ToLowerConcat(a: string, b: string)
    ensures ToLower(a + b) == ToLower(a) + ToLower(b)
  {
  }

  /** Lower-casing keeps the `;` that separates the parameters. */
  lemma LowerAroundSemicolon(mediaType: string, parameters: string)
    requires ';' !in mediaType
    ensures ToLower(mediaType + ";" + parameters) == ToLower(mediaType) + [';'] + ToLower(parameters)
    ensures ';' !in ToLower(mediaType)
  {
    var whole := mediaType + ";" + parameters;
    var split := ToLower(mediaType) + [';'] + ToLower(parameters);
    assert |ToLower(whole)| == |split|;
    forall i | 0 <= i < |whole| ensures ToLower(whole)[i] == split[i] {
      if i < |mediaType| {
        assert whole[i] == mediaType[i];
      } else if i > |mediaType| {
        assert whole[i] == parameters[i - |mediaType| - 1];
      }
    }
    forall i | 0 <= i < |mediaType| ensures ToLower(mediaType)[i] != ';' {
      assert mediaType[i] != ';';
    }
  }

  /** The media type stops at the first `;`. */
  lemma MediaTypeIgnoresParameters(mediaType: string, parameters: string)
    requires ';' !in mediaType
    ensures MediaType(mediaType + ";" + parameters) == MediaType(mediaType)
  {
    LowerAroundSemicolon(mediaType, parameters);
    BeforeFirstSplit(ToLower(mediaType), ';', ToLower(parameters));
    BeforeFirstAbsent(ToLower(mediaType), ';');
  }

  /** Parameters after a `;` do not affect the verdict. */
  lemma ContentTypeIgnoresParameters(mediaType: string, parameters: string)
    requires ';' !in mediaType
    ensures IsValidRssContentType(Some(mediaType + ";" + parameters)) == IsValidRssContentType(Some(mediaType))
  {
    MediaTypeIgnoresParameters(mediaType, parameters);
    var whole := mediaType + ";" + parameters;
    assert whole != "" by {
      assert whole[|mediaType|] == ';';
    }
    if mediaType == "" {
      assert MediaType(mediaType) == "";
      assert "" !in FeedTypes;
    }
  }

  /** The test does not depend on letter case. */
  lemma ContentTypeIgnoresCase(header: string)
    ensures IsValidRssContentType(Some(ToLower(header))) == IsValidRssContentType(Some(header))
  {
    assert ToLower(ToLower(header)) == ToLower(header) by {
      forall i | 0 <= i < |header| ensures ToLower(ToLower(header))[i] == ToLower(header)[i] {
        LowerCharIdempotent(header[i]);
      }
    }
  }

  // ---------------------------------------------------------------------
  // GeoJSON export.

  datatype FeatureProperties = FeatureProperties(
    titre: string,
    categorie: string,
    importance: real,
    lien: string,
    localisation: string,
    date: string,
    description: string,
    imageUrl: string)

  /** A point feature; `coordinates` is `[longitude, latitude]`. */
  datatype Feature = Feature(coordinates: (real, real), properties: FeatureProperties)

  predicate Located(a: AnalyzedArticle) {
    a.analysis.latitude.Some? && a.analysis.longitude.Some?
  }

  /** The feature of one located article. */
  function ToFeature(a: AnalyzedArticle): (f: Feature)
    requires Located(a)
    ensures f.coordinates.0 == a.analysis.longitude.value && f.coordinates.1 == a.analysis.latitude.value
    ensures f.properties.titre == a.article.title && f.properties.lien == a.article.link
    ensures f.properties.categorie == a.analysis.categorie && f.properties.importance == a.analysis.importance
    ensures a.article.pubDate.None? ==> f.properties.date == ""
    ensures a.article.pubDate.Some? ==> f.properties.date == a.article.pubDate.value
    ensures a.article.description.None? ==> f.properties.description == ""
    ensures a.article.imageUrl.None? ==> f.properties.imageUrl == ""
    ensures f.properties.description == OrElse(a.article.description, "")
    ensures f.properties.imageUrl == OrElse(a.article.imageUrl, "")
    ensures f.properties.localisation == a.analysis.localisation
  {
    Feature(
      (a.analysis.longitude.value, a.analysis.latitude.value),
      FeatureProperties(
        a.article.title, a.analysis.categorie, a.analysis.importance, a.article.link,
        a.analysis.localisation,
        OrElse(a.article.pubDate, ""),
        OrElse(a.article.description, ""),
        OrElse(a.article.imageUrl, "")))
  }

  /** The features one article contributes: its own when located, none
      otherwise. */
  function FeaturesOf(a: AnalyzedArticle): (r: seq<Feature>)
    ensures |r| <= 1
  {
    if Located(a) then [ToFeature(a)] else []
  }

  /** `makeGeoJson(articles).features`. */
  function MakeGeoJson(articles: seq<AnalyzedArticle>): (r: seq<Feature>)
    ensures |r| <= |articles|
  {
    if articles == [] then []
    else FeaturesOf(articles[0]) + MakeGeoJson(articles[1..])
  }

  /** The features are, in order, those of the located articles: one per
      article with both coordinates, longitude first, and the optional
      date, description and image as "" when falsy. */
  lemma {:induction false} MakeGeoJsonIsMapOfFilter(articles: seq<AnalyzedArticle>)
    ensures |MakeGeoJson(articles)| == |Filter(articles, Located)|
    ensures forall i :: 0 <= i < |MakeGeoJson(articles)| ==>
      MakeGeoJson(articles)[i] == ToFeature(Filter(articles, Located)[i])
  {
    if articles != [] {
      MakeGeoJsonIsMapOfFilter(articles[1..]);
      var features := MakeGeoJson(articles);
      var located := Filter(articles, Located);
      var tail := MakeGeoJson(articles[1..]);
      var rest := Filter(articles[1..], Located);
      if Located(articles[0]) {
        assert features == [ToFeature(articles[0])] + tail;
        assert located == [articles[0]] + rest;
        forall i | 1 <= i < |features| ensures features[i] == ToFeature(located[i]) {
          assert features[i] == tail[i - 1] && located[i] == rest[i - 1];
        }
      } else {
        assert features == tail && located == rest;
      }
    }
  }

  lemma {:induction false} MakeGeoJsonConcat(a: seq<AnalyzedArticle>, b: seq<AnalyzedArticle>)
    ensures MakeGeoJson(a + b) == MakeGeoJson(a) + MakeGeoJson(b)
  {
    if a == [] {
      assert a + b == b;
    } else {
      assert (a + b)[0] == a[0];
      assert (a + b)[1..] == a[1..] + b;
      MakeGeoJsonConcat(a[1..], b);
      calc {
        MakeGeoJson(a + b);
        FeaturesOf(a[0]) + MakeGeoJson(a[1..] + b);
        FeaturesOf(a[0]) + (MakeGeoJson(a[1..]) + MakeGeoJson(b));
        (FeaturesOf(a[0]) + MakeGeoJson(a[1..])) + MakeGeoJson(b);
        MakeGeoJson(a) + MakeGeoJson(b);
      }
    }
  }

  // ---------------------------------------------------------------------
  // Remaining-time label.

  /** `Math.round(ms / 1000)` for a non-negative whole number of
      milliseconds: halves round up. */
  function RoundedSeconds(ms: nat): (s: nat)
    ensures 1000 * s - 500 <= ms < 1000 * s + 500
  {
    (ms + 500) / 1000
  }

  /** `${s < 10 ? '0' : ''}${s}` for the seconds of a minute. */
  function TwoDigits(s: nat): (r: string)
    requires s < 60
    ensures |r| == 2 && AllDigits(r) && DigitsValue(r) == s
  {
    assert DigitsValue([DigitChar(s / 10)]) == s / 10 by {
      assert [DigitChar(s / 10)][..0] == [];
    }
    [DigitChar(s / 10), DigitChar(s % 10)]
  }

  const Remaining := " sec remaining"

  /** `formatTimeMs` over whole milliseconds. */
  function FormatTimeMs(ms: int): (r: string)
    ensures ms <= 0 ==> r == ""
    ensures ms > 0 && RoundedSeconds(ms) == 0 ==> r == "Est. <1 sec remaining"
    ensures ms > 0 && 0 < RoundedSeconds(ms) < 60 ==> r == "Est. ~" + NatToString(RoundedSeconds(ms)) + Remaining
  {
    if ms <= 0 then ""
    else
      var total := RoundedSeconds(ms);
      var minutes := total / 60;
      var seconds := total % 60;
      if minutes > 0 then "Est. ~" + NatToString(minutes) + " min " + TwoDigits(seconds) + Remaining
      else if total > 0 then "Est. ~" + NatToString(total) + Remaining
      else "Est. <1 sec remaining"
  }

  /** From one minute on, the label reads back as minutes and two-digit
      seconds that add up to the rounded duration. */
  lemma FormatTimeReadsBack(ms: nat)
    requires RoundedSeconds(ms) >= 60
    ensures var m := NatToString(RoundedSeconds(ms) / 60);
            var ss := FormatTimeMs(ms)[6 + |m| + 5..6 + |m| + 7];
            && FormatTimeMs(ms) == "Est. ~" + m + " min " + ss + Remaining
            && AllDigits(ss) && m[0] != '0'
            && 60 * DigitsValue(m) + DigitsValue(ss) == RoundedSeconds(ms)
  {
    var total := RoundedSeconds(ms);
    var m := NatToString(total / 60);
    NatToStringRoundTrip(total / 60);
    var ss := TwoDigits(total % 60);
    var r := "Est. ~" + m + " min " + ss + Remaining;
    assert r[6 + |m| + 5..6 + |m| + 7] == ss;
  }

  // ---------------------------------------------------------------------
  // Batch size.

  /** `numToAnalyze`: a count, or 'all'. */
  datatype BatchLimit = All | AtMost(n: nat)

  /** `articlesToProcessCount`. */
  function ArticlesToProcessCount(available: nat, limit: BatchLimit): (r: nat)
    ensures r <= available
    ensures available == 0 ==> r == 0
    ensures limit.All? ==> r == available
    ensures limit.AtMost? ==> r == if limit.n < available then limit.n else available
  {
    if available == 0 then 0
    else match limit
      case All => available
      case AtMost(n) => if n < available then n else available
  }

  // ---------------------------------------------------------------------
  // Sources.

  /** The configured sources and the URLs selected for fetching. */
  datatype Sources = Sources(all: seq<RssSource>, selected: seq<string>)

  datatype AddError = EmptyField | BadScheme | AlreadyPresent | NotAFeed

  datatype AddOutcome = Added(sources: Sources) | Rejected(reason: AddError)

  /** `/^https?:\/\//i`. */
  predicate HasHttpScheme(url: string) {
    StartsWith(ToLower(url), "http://") || StartsWith(ToLower(url), "https://")
  }

  predicate HasUrl(all: seq<RssSource>, url: string) {
    exists i :: 0 <= i < |all| && all[i].url == url
  }

  /** `handleAddRssSource`: name and URL are trimmed; an empty field, a
      URL without an http(s) scheme, a URL already configured or one the
      feed probe rejects (`checkUrlIsRssCompliant`, a parameter here) is
      refused, in that order; otherwise the source is appended to the list
      and its URL to the selection. */
  function AddSource(state: Sources, name: string, url: string, isFeed: string -> bool): (r: AddOutcome)
    ensures r.Added? <==>
      (Trim(name) != "" && Trim(url) != "" && HasHttpScheme(Trim(url))
       && !HasUrl(state.all, Trim(url)) && isFeed(Trim(url)))
    ensures r.Added? ==>
      r.sources.all == state.all + [RssSource(Trim(name), Trim(url))]
      && r.sources.selected == state.selected + [Trim(url)]
    ensures Trim(name) == "" || Trim(url) == "" ==> r == Rejected(EmptyField)
    ensures Trim(name) != "" && Trim(url) != "" && !HasHttpScheme(Trim(url)) ==> r == Rejected(BadScheme)
    ensures Trim(name) != "" && Trim(url) != "" && HasHttpScheme(Trim(url)) && HasUrl(state.all, Trim(url)) ==>
      r == Rejected(AlreadyPresent)
  {
    var n := Trim(name);
    var u := Trim(url);
    if n == "" || u == "" then Rejected(EmptyField)
    else if !HasHttpScheme(u) then Rejected(BadScheme)
    else if HasUrl(state.all, u) then Rejected(AlreadyPresent)
    else if !isFeed(u) then Rejected(NotAFeed)
    else Added(Sources(state.all + [RssSource(n, u)], state.selected + [u]))
  }

  function UrlIsNot(url: string): RssSource -> bool {
    (s: RssSource) => s.url != url
  }

  function IsNot(url: string): string -> bool {
    (u: string) => u != url
  }

  /** `handleRemoveRssSource`: every source with the URL leaves the list,
      and the URL leaves the selection; everything else stays, in order. */
  function RemoveSource(state: Sources, url: string): (r: Sources)
    ensures !HasUrl(r.all, url) && url !in r.selected
    ensures IsSubseq(r.all, state.all) && IsSubseq(r.selected, state.selected)
    ensures forall s :: s in state.all && s.url != url ==> s in r.all
    ensures forall u :: u in state.selected && u != url ==> u in r.selected
    ensures r.all == Filter(state.all, UrlIsNot(url)) && r.selected == Filter(state.selected, IsNot(url))
  {
    FilterIsSubseq(state.all, UrlIsNot(url));
    FilterIsSubseq(state.selected, IsNot(url));
    Sources(Filter(state.all, UrlIsNot(url)), Filter(state.selected, IsNot(url)))
  }

  /** Removing the URL of a source appended last, when it was present
      nowhere before, gives back the lists from before. */
  lemma RemoveAppended(state: Sources, source: RssSource)
    requires !HasUrl(state.all, source.url) && source.url !in state.selected
    ensures RemoveSource(Sources(state.all + [source], state.selected + [source.url]), source.url) == state
  {
    FilterConcat(state.all, [source], UrlIsNot(source.url));
    FilterAll(state.all, UrlIsNot(source.url));
    FilterConcat(state.selected, [source.url], IsNot(source.url));
    FilterAll(state.selected, IsNot(source.url));
  }

  /** Removing a source just added restores the previous state. */
  lemma AddThenRemove(state: Sources, name: string, url: string, isFeed: string -> bool)
    requires AddSource(state, name, url, isFeed).Added?
    requires Trim(url) !in state.selected
    ensures RemoveSource(AddSource(state, name, url, isFeed).sources, Trim(url)) == state
  {
    var source := RssSource(Trim(name), Trim(url));
    assert AddSource(state, name, url, isFeed).sources == Sources(state.all + [source], state.selected + [source.url]);
    RemoveAppended(state, source);
  }

  /** `handleToggleRssSourceSelection`. */
  function Toggle(selected: seq<string>, url: string): (r: seq<string>)
    ensures url in r <==> url !in selected
    ensures forall u :: u != url ==> (u in r <==> u in selected)
  {
    if url in selected then Filter(selected, IsNot(url)) else selected + [url]
  }

  /** Toggling twice restores membership; from an unselected URL it
      restores the selection exactly. */
  lemma ToggleTwice(selected: seq<string>, url: string)
    ensures forall u :: u in Toggle(Toggle(selected, url), url) <==> u in selected
    ensures url !in selected ==> Toggle(Toggle(selected, url), url) == selected
  {
    if url !in selected {
      FilterConcat(selected, [url], IsNot(url));
      FilterAll(selected, IsNot(url));
    }
  }

  // ---------------------------------------------------------------------
  // Auto-refresh.

  /** The reports whose error is falsy, their articles concatenated. */
  function Reported(reports: seq<Ingest.SourceReport>): seq<RawArticle> {
    if reports == [] then []
    else (if OrElse(reports[0].error, "") == "" then reports[0].articles else []) + Reported(reports[1..])
  }

  function IdsOf(xs: seq<RawArticle>): set<string> {
    set i | 0 <= i < |xs| :: xs[i].id
  }

  /** The callback of the auto-refresh: for every report without an error,
      the articles whose ids were not loaded before, each appended unless
      an article with that id was already collected. */
  method CollectNew(existing: set<string>, reports: seq<Ingest.SourceReport>) returns (collected: seq<RawArticle>)
    ensures collected == Ingest.Survivors(existing, Reported(reports))
    ensures DistinctBy(collected, Ingest.IdOf)
    ensures forall i :: 0 <= i < |collected| ==> collected[i].id !in existing
  {
    collected := [];
    var k := 0;
    while k < |reports|
      invariant 0 <= k <= |reports|
      invariant collected == Ingest.Survivors(existing, Reported(reports[..k]))
    {
      ReportedSnoc(reports[..k], reports[k]);
      assert reports[..k + 1] == reports[..k] + [reports[k]];
      if OrElse(reports[k].error, "") == "" {
        collected := CollectFromSource(existing, Reported(reports[..k]), collected, reports[k].articles);
      } else {
        assert Reported(reports[..k + 1]) == Reported(reports[..k]);
      }
      k := k + 1;
    }
    assert reports[..k] == reports;
    Ingest.SurvivorsDistinct(existing, Reported(reports));
  }

  /** One source's callback: `earlier` is everything reported before it,
      of which `collected` holds the new articles. */
  method CollectFromSource(existing: set<string>, earlier: seq<RawArticle>, collected: seq<RawArticle>,
                           articles: seq<RawArticle>) returns (result: seq<RawArticle>)
    requires collected == Ingest.Survivors(existing, earlier)
    ensures result == Ingest.Survivors(existing, earlier + articles)
  {
    result := collected;
    var j := 0;
    assert earlier + articles[..0] == earlier;
    while j < |articles|
      invariant 0 <= j <= |articles|
      invariant result == Ingest.Survivors(existing, earlier + articles[..j])
    {
      var a := articles[j];
      var prefix := earlier + articles[..j];
      assert earlier + articles[..j + 1] == prefix + [a];
      CollectStep(existing, prefix, a);
      if a.id !in existing && !HasId(result, a.id) {
        result := result + [a];
      }
      j := j + 1;
    }
    assert articles[..j] == articles;
  }

  /** The test the callback applies to one article agrees with the
      first-seen filter. */
  lemma CollectStep(existing: set<string>, prefix: seq<RawArticle>, a: RawArticle)
    ensures var kept := Ingest.Survivors(existing, prefix);
      if a.id in existing || HasId(kept, a.id)
      then Ingest.Survivors(existing, prefix + [a]) == kept
      else Ingest.Survivors(existing, prefix + [a]) == kept + [a]
  {
    var kept := Ingest.Survivors(existing, prefix);
    SurvivorIds(existing, prefix);
    Ingest.SurvivorsSnoc(existing, prefix, a);
    assert HasId(kept, a.id) <==> a.id in Ingest.Ids(kept);
  }

  /** `xs.find(x => x.id === id)` finds something. */
  predicate HasId(xs: seq<RawArticle>, id: string) {
    exists i :: 0 <= i < |xs| && xs[i].id == id
  }

  lemma ReportedSnoc(reports: seq<Ingest.SourceReport>, r: Ingest.SourceReport)
    ensures Reported(reports + [r]) == Reported(reports) + (if OrElse(r.error, "") == "" then r.articles else [])
  {
    if reports == [] {
      assert [r][1..] == [];
    } else {
      assert (reports + [r])[1..] == reports[1..] + [r];
      ReportedSnoc(reports[1..], r);
    }
  }

  /** The ids that survive are the ids of the input not seen before. */
  lemma {:induction false} SurvivorIds(seen: set<string>, xs: seq<RawArticle>)
    ensures Ingest.Ids(Ingest.Survivors(seen, xs)) == Ingest.Ids(xs) - seen
    decreases |xs|
  {
    if xs != [] {
      if xs[0].id in seen {
        SurvivorIds(seen, xs[1..]);
      } else {
        SurvivorIds(seen + {xs[0].id}, xs[1..]);
        assert Ingest.Ids([xs[0]] + Ingest.Survivors(seen + {xs[0].id}, xs[1..]))
            == {xs[0].id} + Ingest.Ids(Ingest.Survivors(seen + {xs[0].id}, xs[1..])) by {
          Ingest.IdsConcat([xs[0]], Ingest.Survivors(seen + {xs[0].id}, xs[1..]));
          assert [xs[0]][1..] == [];
        }
      }
    }
  }

  function IdNotIn(ids: set<string>): RawArticle -> bool {
    (a: RawArticle) => a.id !in ids
  }

  /** The `setRawArticles` update: the collected articles whose ids are
      not already loaded are appended. */
  function MergeNew(loaded: seq<RawArticle>, collected: seq<RawArticle>): (r: seq<RawArticle>)
    ensures |r| >= |loaded| && r[..|loaded|] == loaded
    ensures r[|loaded|..] == Filter(collected, IdNotIn(Ingest.Ids(loaded)))
    ensures forall i :: |loaded| <= i < |r| ==> r[i] in collected && r[i].id !in Ingest.Ids(loaded)
    ensures forall a :: a in collected && a.id !in Ingest.Ids(loaded) ==> a in r
  {
    var r := loaded + Filter(collected, IdNotIn(Ingest.Ids(loaded)));
    assert r[..|loaded|] == loaded;
    r
  }

  /** Merging keeps the loaded list free of duplicate ids. */
  lemma MergeNewKeepsDistinct(loaded: seq<RawArticle>, collected: seq<RawArticle>)
    requires DistinctBy(loaded, Ingest.IdOf) && DistinctBy(collected, Ingest.IdOf)
    ensures DistinctBy(MergeNew(loaded, collected), Ingest.IdOf)
  {
    var newOnes := Filter(collected, IdNotIn(Ingest.Ids(loaded)));
    FilterKeepsDistinct(collected, IdNotIn(Ingest.Ids(loaded)), Ingest.IdOf);
    var r := loaded + newOnes;
    forall i, j | 0 <= i < j < |r| ensures Ingest.IdOf(r[i]) != Ingest.IdOf(r[j]) {
      if j >= |loaded| {
        assert r[j] == newOnes[j - |loaded|];
        assert IdNotIn(Ingest.Ids(loaded))(newOnes[j - |loaded|]);
        if i < |loaded| {
          assert r[i] == loaded[i];
        } else {
          assert r[i] == newOnes[i - |loaded|];
        }
      }
    }
  }

  // ---------------------------------------------------------------------
  // Analysis batch.

  /** What `analyzeArticleContent` did for one article. An analysis
      carries, besides its `AnalysisData`, the `description` and `imageUrl`
      keys of the returned object when present. */
  datatype AnalysisOutcome =
    | Analysed(data: AnalysisData, description: Option<string>, imageUrl: Option<string>)
    | NullAnalysis
    | AnalysisThrew

  const NullLocalisation := "Données d'analyse nulles"
  const ThrewLocalisation := "Erreur d'analyse batch"

  /** `defaultFailedAnalysisData` with its `localisation` replaced. */
  function FailedAnalysis(localisation: string): AnalysisData {
    AnalysisData(0.0, "flash", localisation, None, None)
  }

  function Analysis(outcome: AnalysisOutcome): AnalysisData {
    match outcome
    case Analysed(d, _, _) => d
    case NullAnalysis => FailedAnalysis(NullLocalisation)
    case AnalysisThrew => FailedAnalysis(ThrewLocalisation)
  }

  /** An outcome whose analysis places the article on the map. */
  predicate HasCoordinates(outcome: AnalysisOutcome) {
    outcome.Analysed? && outcome.data.latitude.Some? && outcome.data.longitude.Some?
  }

  /** `{ ...article, ...analysis }`: the analysis fields join the article,
      and a `description` or `imageUrl` the analysis carries replaces the
      article's own. */
  function Analyse(article: RawArticle, outcome: AnalysisOutcome): (r: AnalyzedArticle)
    ensures r.article.id == article.id && r.article.title == article.title && r.article.link == article.link
    ensures r.article.pubDate == article.pubDate && r.article.source == article.source
    ensures outcome.Analysed? && outcome.description.Some? ==> r.article.description == outcome.description
    ensures !(outcome.Analysed? && outcome.description.Some?) ==> r.article.description == article.description
    ensures outcome.Analysed? && outcome.imageUrl.Some? ==> r.article.imageUrl == outcome.imageUrl
    ensures !(outcome.Analysed? && outcome.imageUrl.Some?) ==> r.article.imageUrl == article.imageUrl
    ensures outcome.Analysed? ==> r.analysis == outcome.data
    ensures outcome.NullAnalysis? ==> r.analysis == FailedAnalysis(NullLocalisation)
    ensures outcome.AnalysisThrew? ==> r.analysis == FailedAnalysis(ThrewLocalisation)
    ensures Located(r) <==> HasCoordinates(outcome)
  {
    match outcome
    case Analysed(d, desc, image) =>
      var merged := article.(
        description := if desc.Some? then desc else article.description,
        imageUrl := if image.Some? then image else article.imageUrl);
      AnalyzedArticle(merged, d)
    case _ => AnalyzedArticle(article, Analysis(outcome))
  }

  /** Each article merged with its own outcome. */
  function AnalyseAll(articles: seq<RawArticle>, outcomes: seq<AnalysisOutcome>): (r: seq<AnalyzedArticle>)
    requires |outcomes| == |articles|
    ensures |r| == |articles|
    ensures forall i :: 0 <= i < |r| ==> r[i] == Analyse(articles[i], outcomes[i])
  {
    seq(|articles|, i requires 0 <= i < |articles| => Analyse(articles[i], outcomes[i]))
  }

  /** `performArticleAnalysisBatch`: nothing without an API key or without
      articles; otherwise one result per article, in order, carrying the
      article merged with its analysis, or the failure defaults. */
  method AnalyseBatch(hasApiKey: bool, articles: seq<RawArticle>, outcomes: seq<AnalysisOutcome>)
    returns (results: seq<AnalyzedArticle>)
    requires |outcomes| == |articles|
    ensures !hasApiKey || articles == [] ==> results == []
    ensures hasApiKey ==> |results| == |articles|
    ensures hasApiKey ==> results == AnalyseAll(articles, outcomes)
    ensures hasApiKey ==> forall i :: 0 <= i < |results| ==>
      results[i].article.id == articles[i].id
      && results[i].article.title == articles[i].title
      && results[i].article.link == articles[i].link
      && (outcomes[i].Analysed? ==> results[i].analysis == outcomes[i].data)
      && (outcomes[i].NullAnalysis? ==> results[i].analysis == FailedAnalysis(NullLocalisation))
      && (outcomes[i].AnalysisThrew? ==> results[i].analysis == FailedAnalysis(ThrewLocalisation))
      && (!outcomes[i].Analysed? ==> results[i].article == articles[i])
  {
    results := [];
    if !hasApiKey || |articles| == 0 {
      return;
    }
    var i := 0;
    while i < |articles|
      invariant 0 <= i <= |articles|
      invariant |results| == i
      invariant forall j :: 0 <= j < i ==> results[j] == Analyse(articles[j], outcomes[j])
    {
      results := results + [Analyse(articles[i], outcomes[i])];
      i := i + 1;
    }
  }

  /** Analysing a non-empty batch: the first article merged with its
      outcome, then the rest. */
  lemma AnalyseAllCons(articles: seq<RawArticle>, outcomes: seq<AnalysisOutcome>)
    requires |outcomes| == |articles| && articles != []
    ensures MakeGeoJson(AnalyseAll(articles, outcomes))
      == FeaturesOf(Analyse(articles[0], outcomes[0])) + MakeGeoJson(AnalyseAll(articles[1..], outcomes[1..]))
  {
    var all := AnalyseAll(articles, outcomes);
    assert all[1..] == AnalyseAll(articles[1..], outcomes[1..]);
  }

  /** The map export of a batch has one feature per outcome with both
      coordinates: failed analyses place nothing. */
  lemma {:induction false} BatchFeatureCount(articles: seq<RawArticle>, outcomes: seq<AnalysisOutcome>)
    requires |outcomes| == |articles|
    ensures |MakeGeoJson(AnalyseAll(articles, outcomes))| == |Filter(outcomes, HasCoordinates)|
  {
    if articles != [] {
      AnalyseAllCons(articles, outcomes);
      BatchFeatureCount(articles[1..], outcomes[1..]);
    }
  }

  /** Each feature of the map export of a batch is the feature of an
      article, with both coordinates, merged with its analysis. */
  lemma {:induction false} BatchFeatures(articles: seq<RawArticle>, outcomes: seq<AnalysisOutcome>)
    requires |outcomes| == |articles|
    ensures forall f :: f in MakeGeoJson(AnalyseAll(articles, outcomes)) ==>
      exists i :: (0 <= i < |articles| && HasCoordinates(outcomes[i])
        && f == ToFeature(Analyse(articles[i], outcomes[i])))
  {
    if articles != [] {
      AnalyseAllCons(articles, outcomes);
      BatchFeatures(articles[1..], outcomes[1..]);
      var head := Analyse(articles[0], outcomes[0]);
      var rest := MakeGeoJson(AnalyseAll(articles[1..], outcomes[1..]));
      forall f | f in MakeGeoJson(AnalyseAll(articles, outcomes))
        ensures exists i :: (0 <= i < |articles| && HasCoordinates(outcomes[i])
          && f == ToFeature(Analyse(articles[i], outcomes[i])))
      {
        if f in FeaturesOf(head) {
          assert HasCoordinates(outcomes[0]) && f == ToFeature(head);
        } else {
          assert f in rest;
          var j :| 0 <= j < |articles| - 1 && HasCoordinates(outcomes[1..][j])
            && f == ToFeature(Analyse(articles[1..][j], outcomes[1..][j]));
          assert articles[1..][j] == articles[j + 1] && outcomes[1..][j] == outcomes[j + 1];
        }
      }
    }
  }
}

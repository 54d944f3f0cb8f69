# News feed dashboard — a Dafny model of its core logic

The application is a browser dashboard. It reads RSS and Atom feeds, merges them into one list of
articles without duplicates, and scrapes article pages for their main text and image. An external
classifier annotates each article with an importance score, a category and coordinates. The
dashboard exports the located articles as GeoJSON and shows them on a map, with category, search,
date and zoom filters and a sorted sidebar.

This project models the deterministic core of that pipeline as pure Dafny functions over immutable
records and sequences, and proves what each step promises:

- `FeedParser` (`feedparser.dfy`) models `parseRSSFeed`. It covers the title default, the link
  preference, the tag-stripped and truncated description, the four-tier image cascade and the
  article id.
- `Ingest` (`ingest.dfy`) models `fetchAllRssFeeds`. It covers the sequential fold over the sources,
  de-duplication by id where the first article seen wins, and the report each source gets. It also
  covers the newest-first sort on a date key whose `DD/MM/YYYY` branch is the ECMAScript MakeDay
  computation.
- `Scraper` (`scraper.dfy`) models `scrapeArticleContent`. It covers the status gate, the og:image
  lookup, the cascade over the content selectors, the body fallback and the result mapping.
- `Dashboard` (`dashboard.dfy`) models the helpers of the dashboard component:
  - the Content-Type allow-list;
  - the GeoJSON projection;
  - the time-remaining text;
  - the batch size;
  - adding, removing and toggling sources;
  - the auto-refresh collection and merge of new articles;
  - the batch analysis loop.
- `MapView` (`mapview.dfy`) models the map component:
  - the feature to marker mapping with its defaults and zoom tier;
  - the category key order;
  - the four-part filter;
  - the sidebar comparator.
- Shared modules:
  - `Articles` holds the record shapes.
  - `Wrappers` holds `Option` and the JavaScript `||` fallbacks.
  - `Seqs` holds filter, subsequence and distinctness.
  - `Text` holds JavaScript whitespace, trimming, the regular-expression rewrites, ASCII lower case
    and decimal digits.
  - `Sorting` holds a stable insertion sort used as the reference for `Array.prototype.sort`.

Everything the code gets from the platform or the network is a parameter, for example
`new URL(ref, base)`, `new Date(text)`, the HTTP response, the parsed document and the classifier.
A feed entry, for instance, is the record of optional strings the code extracts from the XML
element.

## Model

| member | source | states |
|---|---|---|
| FeedParser.SelectEntries | rssService.ts:14-16 | `<item>` elements are used whenever there is at least one; `<entry>` elements only when there are none |
| FeedParser.EntryTitle | rssService.ts:22-23 | the title is the trimmed title text, or "No title" when it is missing or blank, so it is never empty |
| FeedParser.EntryLink | rssService.ts:25-32 | a non-empty Atom `href` wins; otherwise the first `<link>` text; otherwise "" |
| FeedParser.EntryDate | rssService.ts:34-47 | a date is formatted exactly when the date element has non-empty text; the formatter is a parameter, so an unparseable date still yields its text |
| FeedParser.RawDescription | rssService.ts:49-51 | the first non-empty of description, summary and content, or "" |
| FeedParser.PlainText | rssService.ts:53 | the stripped text is no longer than the raw text, has no tags, no leading, trailing or doubled whitespace, and every whitespace character in it is a plain space |
| FeedParser.CleanDescription | rssService.ts:53 | at most 253 characters and tag-free; a raw text of at most 250 characters gives its plain text; a longer one gives the first 250 characters of its plain text followed by "..." (the length test is on the raw text, the cut on the plain text) |
| FeedParser.MediaImage | rssService.ts:57-60 | no media element gives no image; otherwise a non-empty `url` is the image, else a non-empty `href`, else none |
| FeedParser.EnclosureImage | rssService.ts:61-64 | the image enclosure's `url` is the image exactly when it is non-empty |
| FeedParser.SrcValueAt | rssService.ts:66 | `src="([^">]+)"` matches at a position exactly when a closing quote follows a non-empty run free of `"` and `>`, and the capture is that run |
| FeedParser.LastSrc | rssService.ts:66 | greedy `[^>]+` settles on the last position in its range where `src="…"` matches, or none when no position matches |
| FeedParser.TagLimit | rssService.ts:66 | `[^>]+` after `<img` can reach up to the first `>` and no further |
| FeedParser.ImgMatchAt | rssService.ts:66 | at an `<img`, the regex matches exactly when some `src="…"` starts between one character after `<img` and the first `>`, and it captures the last such one; a capture is non-empty and free of `"` and `>` |
| FeedParser.FirstImg | rssService.ts:66 | the leftmost position where the regex matches, with no match before it, or none when it matches nowhere |
| FeedParser.ImgSrc | rssService.ts:66 | the capture is that of the leftmost position where the regex matches, or none when it matches nowhere |
| FeedParser.DescriptionImage | rssService.ts:65-75 | an image is taken from the description exactly when the first `<img src>` capture resolves, against the link or `http://localhost`, to an http or https URL, and the image is that URL's `href` |
| FeedParser.Placeholder | rssService.ts:76-79 | the placeholder is `https://picsum.photos/seed/`, the first 20 ASCII alphanumerics of the title, the entry index and `/160/90` |
| FeedParser.PlaceholderPerIndex | rssService.ts:76-79 | two entries with the same title at different positions never share a placeholder |
| Text.AlnumOnly | rssService.ts:77 | `replace(/[^a-zA-Z0-9]/g, "")` keeps exactly the ASCII letters and digits, and leaves a text of only those unchanged |
| FeedParser.EntryImage | rssService.ts:55-79 | the image precedence is media, then enclosure, then description image, then placeholder, and the result is never empty |
| FeedParser.SyntheticId | rssService.ts:82 | a generated id starts with the source name and a dash |
| FeedParser.ParseEntry | rssService.ts:19-89 | the article's title, link, date, description and image are those of the entry's title, link, date, description and image rules; the id is the link when non-empty, otherwise the generated id from that entry's clock reading, index and random digits; the source name is kept |
| FeedParser.ParseFeed | rssService.ts:5-92 | one article per selected entry, in order, article i being entry i parsed at index i; links come from `<item>` elements when there are any, else from `<entry>` elements |
| Ingest.ErrorMessage | rssService.ts:139-150 | a message containing "failed to fetch" in any case becomes the network error naming the source, naming the proxy host in parentheses and ending with its URL; any other message is kept as is |
| Ingest.Survivors | rssService.ts:131-135 | the kept articles are a subsequence of the input, none with an id seen before |
| Ingest.SurvivorsDistinct | rssService.ts:131-135 | the kept articles have pairwise distinct ids |
| Ingest.SurvivorsConcat | rssService.ts:125-136 | filtering two sources in a row equals filtering the first and then the second against the ids of the whole first source |
| Ingest.SurvivorsSnoc | rssService.ts:132-134 | an article survives exactly when no earlier article had its id |
| Ingest.Step | rssService.ts:129-152 | a failing source yields no articles and an error; a successful one yields its survivors and no error; the report carries the source name |
| Ingest.Fold | rssService.ts:125-153 | one report per source, each named after its source; no accumulated article has an id seen before the loop |
| Ingest.FoldArticles | rssService.ts:125-153 | the accumulated list is the survivors of everything the successful sources delivered, in source order |
| Ingest.FoldReports | rssService.ts:128-153 | there is one report per source, in source order; the report of source i holds its survivors against all earlier sources, or no articles and its error message |
| Ingest.FoldIsReportsConcat | rssService.ts:136-137 | the accumulated list is the concatenation of what the reports handed out |
| Ingest.DateKey | rssService.ts:157-165 | the key is 0 for a missing or empty date; a `DD/MM/YYYY` date is keyed by MakeDay of its fields in milliseconds; any other date uses the parser, or 0 when it fails |
| Ingest.DayFromYearStep | rssService.ts:161 | consecutive years are exactly one year's length apart in the day count |
| Ingest.CalendarOrder | rssService.ts:161 | for real calendar dates, the day number orders exactly as (year, month, day) does, and is equal only for the same date |
| Ingest.DayMonthYearOrder | rssService.ts:159-161 | two `DD/MM/YYYY` keys compare exactly as their calendar dates |
| Ingest.NewerFirstIsPreorder | rssService.ts:155-172 | the comparator `dateB - dateA` induces a total preorder |
| Sorting.SortSorted | rssService.ts:155 | the reference sort orders any list by a total preorder |
| Sorting.SortKeepsDistinct | rssService.ts:155 | sorting keeps keys distinct |
| Ingest.FetchAll | rssService.ts:117-174 | the reports are those of the fold; the result is a permutation of the survivors of all delivered articles, has distinct ids, and has non-increasing date keys |
| Scraper.OgImage | articleScraper.ts:51-62 | the og:image `property` value is preferred to the `name` value; the image exists exactly when the chosen value resolves against the page URL, and is its `href` |
| Scraper.Candidates | articleScraper.ts:73-86 | one candidate per selector, in list order: the normalised text of its first match, or none; every candidate is trimmed with no doubled whitespace |
| Scraper.FirstAccepted | articleScraper.ts:73-94 | the first candidate, in selector order, longer than 200 characters; every earlier one is rejected |
| Scraper.LaterSelectorsIgnored | articleScraper.ts:73-94 | once a candidate is accepted, later selectors and the body cannot change the chosen text |
| Scraper.RunSelectors | articleScraper.ts:73-94 | the loop stops at the first accepted candidate; otherwise it ends holding the last candidate present |
| Scraper.SelectText | articleScraper.ts:66-101 | the text is the first accepted candidate, else the body when the last candidate is shorter than 200 characters, else that candidate; it is always trimmed with no doubled whitespace |
| Scraper.NonEmpty | articleScraper.ts:110-113 | `x \|\| null` keeps exactly the non-empty strings |
| Scraper.Scrape | articleScraper.ts:31-130 | an exception or a status other than 200 gives two nulls; otherwise the text is null exactly when the chosen text is empty, and the image is null exactly when no og:image resolved |
| Text.Normalise | articleScraper.ts:86 | the normalised text is no longer than the input and has no leading, trailing or doubled whitespace |
| Text.NormaliseIdempotent | articleScraper.ts:86 | normalising twice equals normalising once |
| Text.NormaliseFixesSingles | articleScraper.ts:86 | a trimmed text without doubled whitespace is left unchanged, so lone whitespace characters survive |
| Text.NormaliseKeepsVisible | articleScraper.ts:99 | normalising keeps every non-whitespace character, in order |
| Text.StripTagsTagFree | rssService.ts:53 | after replacing every `<…>` tag by a space, no tag is left |
| Text.CollapseRuns | rssService.ts:53 | `replace(/\s+/g, ' ')` leaves no doubled whitespace; every whitespace character left is a plain space; every other character comes from the input |
| Dashboard.IsValidRssContentType | App-1.tsx:69-81 | false for a missing or empty header; otherwise true exactly when the trimmed lower-case text before the first `;` is one of the five feed types |
| Dashboard.ContentTypeIgnoresParameters | App-1.tsx:71 | parameters after a `;` do not affect the verdict |
| Dashboard.ContentTypeIgnoresCase | App-1.tsx:71 | letter case does not affect the verdict |
| Dashboard.ToFeature | App-1.tsx:145-162 | coordinates are longitude then latitude; title, link, category, importance and place are copied; date, description and image fall back with `\|\|` to "" |
| Dashboard.MakeGeoJson | App-1.tsx:142-167 | the export has at most one feature per article |
| Dashboard.MakeGeoJsonIsMapOfFilter | App-1.tsx:142-167 | the features are, in order, those of exactly the articles with both coordinates |
| Dashboard.MakeGeoJsonConcat | App-1.tsx:142-167 | the export of two lists is the concatenation of their exports |
| Dashboard.RoundedSeconds | App-1.tsx:171 | seconds are rounded to the nearest, halves up |
| Dashboard.FormatTimeMs | App-1.tsx:169-182 | "" for no time left; "Est. <1 sec remaining" below half a second; "Est. ~S sec remaining" up to a minute |
| Dashboard.FormatTimeReadsBack | App-1.tsx:174-177 | from a minute on, the text is "Est. ~M min SS sec remaining" with two-digit seconds, and M and SS read back to the rounded total |
| Dashboard.ArticlesToProcessCount | App-1.tsx:216-220 | the count is at most the number available: 0 when none, all for 'all', otherwise the smaller of the limit and the number available |
| Dashboard.AddSource | App-1.tsx:280-314 | a source is added exactly when the trimmed name and URL are non-empty, the URL has an http(s) scheme in any case, is not configured yet and passes the probe; the rejection reasons come in that order; an added source is appended to both lists |
| Dashboard.RemoveSource | App-1.tsx:316-321 | the new lists are exactly the old ones with the URL's entries filtered out: the URL leaves both lists and every other entry stays, in order |
| Dashboard.AddThenRemove | App-1.tsx:280-321 | removing a source just added restores the previous state |
| Dashboard.Toggle | App-1.tsx:323-327 | toggling flips the URL's membership and no other |
| Dashboard.ToggleTwice | App-1.tsx:323-327 | two toggles restore membership, and the list itself when the URL was absent |
| Dashboard.CollectNew | App-1.tsx:425-443 | auto-refresh collects, in first-seen order, the articles of successful sources whose ids were not loaded, with distinct ids |
| Dashboard.CollectStep | App-1.tsx:435-441 | an article is collected exactly when its id is neither loaded nor already collected |
| Dashboard.SurvivorIds | App-1.tsx:435-441 | the collected ids are exactly the reported ids that were not loaded |
| Dashboard.MergeNew | App-1.tsx:448-453 | the merge keeps the loaded list as a prefix and appends exactly the collected articles whose ids are not loaded, in order |
| Dashboard.MergeNewKeepsDistinct | App-1.tsx:448-453 | merging keeps ids distinct |
| Dashboard.Analyse | App-1.tsx:264-272 | `{...article, ...analysis}` keeps the article's id, title, link, date and source; the analysis's `description` and `imageUrl`, when present, replace the article's; a null or throwing analysis gives the failure defaults with their place label; the article is located exactly when the analysis has both coordinates |
| Dashboard.AnalyseBatch | App-1.tsx:222-276 | without an API key or articles the result is empty; otherwise there is one result per article, in order, each its article merged with its own outcome |
| Dashboard.BatchFeatureCount | App-1.tsx:142-167 | exporting an analysed batch gives exactly one feature per outcome with both coordinates; failed analyses place nothing |
| Dashboard.BatchFeatures | App-1.tsx:142-167 | every feature of an analysed batch's export is the feature of an article with both coordinates, merged with its analysis |
| MapView.MinZoom | MapApp.tsx:51 | the tier is 1, 3 or 5: 1 exactly from 0.6, 5 exactly below 0.3 |
| MapView.MinZoomAntitone | MapApp.tsx:51 | a higher importance never has a higher tier |
| MapView.Importance | MapApp.tsx:30 | importance falls back with `??`: global importance, then importance, then 0 |
| MapView.ParsedDate | MapApp.tsx:32-38 | a date is parsed exactly when the text is non-empty and the parser accepts it |
| MapView.ToMarker | MapApp.tsx:26-56 | title falls back with `\|\|` to "Sans titre", link to "#"; the category is the canonical form of the first non-empty category field; the colour falls back to the default pin colour; coordinates are swapped back to latitude and longitude; the zoom tier follows the importance |
| MapView.Markers | MapApp.tsx:26-57 | one marker per feature, in order, indexed by position |
| MapView.PushMissing | MapApp.tsx:64-68 | appending the missing keys keeps the prefix, adds exactly the missing ones and keeps keys distinct |
| MapView.PushMissingDistinct | MapApp.tsx:64-68 | from distinct keys, the loop appends exactly those not already present, in order |
| MapView.CategoryKeys | MapApp.tsx:60-69 | the keys are exactly the categories present |
| MapView.CategoryKeysOrder | MapApp.tsx:60-69 | keys in the reference order come first, in that order, and then the rest in first-appearance order, without duplicates |
| MapView.Load | MapApp.tsx:24-76 | no data gives no articles and no keys; otherwise one marker per feature, with the keys being exactly the categories present |
| MapView.DateWindow | MapApp.tsx:96-105 | at the right end, undated articles pass and dated ones must not be after the start date; elsewhere only dated articles within the window of (29 - position) days ending at the start date pass |
| MapView.DateWindowNests | MapApp.tsx:96-105 | moving the slider left never hides an article, and the right end shows everything any other position shows |
| MapView.CompareTitles | MapApp.tsx:127 | the title comparison gives -1, 0 or 1, and 0 exactly for equal titles |
| MapView.CompareTitlesAntisymmetric | MapApp.tsx:127 | swapping the titles negates the comparison |
| MapView.CompareTitlesTransitive | MapApp.tsx:127 | the title order is transitive |
| MapView.SidebarCompare | MapApp.tsx:114-128 | the comparator is zero exactly for equal importance, date and title; higher importance, then dated before undated, then newer goes first |
| MapView.SidebarLeRanks | MapApp.tsx:114-128 | the comparator puts a first exactly when a has higher importance, or equal importance and is dated against undated, or newer, or equal on both with the title not after b's |
| MapView.SidebarTotalPreorder | MapApp.tsx:114-128 | the sidebar comparator is a total preorder, so the sort is well defined |
| MapView.Cutoff | MapApp.tsx:98-99 | the cutoff is a whole number of days before the start date, and the start date itself at the right end |
| MapView.Keep | MapApp.tsx:92-110 | an article passes exactly when it is in the chosen category, its lower-cased title includes the lower-cased search (or the search is empty), it is dated within the window of (29 - position) days ending at the start date (at the right end: undated, or not after the start date), and the zoom is no lower than its tier; a passing title is at least as long as a non-empty search |
| MapView.UpdateViews | MapApp.tsx:78-131 | without a map or articles both lists are empty; otherwise the map list is the articles filtered by the four conditions, in order, and the sidebar list is a permutation of it, sorted by the comparator |
| MapView.OpenFiltersShowAll | MapApp.tsx:92-110 | with all categories, an empty search, the slider at the right end and a zoom of at least 5, every article not dated after the start shows on the map |

## Left out

- Network I/O is a parameter:
  - the `fetch` of a feed and its error relabelling in `fetchRssFeed` (rssService.ts:94-115), modelled as a per-source outcome that is a list of articles or an error message;
  - the `axios` request of the scraper, modelled as an exception or a status with a page;
  - the HEAD/GET probe `checkUrlIsRssCompliant`, modelled as the `isFeed` parameter.
- XML and HTML parsing and CSS selector matching (DOMParser, cheerio) are not modelled:
  - A feed entry is the optional strings the code extracts from it.
  - A page is its two og:image values, the text of each selector's first match and the body text.
  - The og:image values are read from the page as loaded (articleScraper.ts:54). The removal of `sectionsToRemove` (articleScraper.ts:20-28, 71) happens before the selector matches and the body text are read, so for those the property that removed sections never reach the result is assumed, not proved.
  - The `parsererror` warning only logs and is omitted.
- `new URL(ref, base)`, section 5.2 of RFC 3986 as refined by the WHATWG URL Standard, is an uninterpreted partial function `Resolver`.
- `new Date(text)`, `getTime()` and `toLocaleDateString('fr-FR')` are parameters. `encodeURIComponent` of the placeholder seed is not modelled; the seed is the alphanumeric title prefix and the index.
- `Date.now()` and `Math.random()` in the generated id are the `now` and `noise` parameters, read per entry index.
- Ingest.DateKey: `new Date(y, m, d)` is computed in UTC. The local time zone and daylight saving offsets are not modelled.
- MapView.Cutoff: `setDate` is modelled as subtracting whole 24-hour days, so daylight saving shifts are not modelled.
- JavaScript strings are UTF-16 code units; the model uses Unicode scalar values. Lengths (the 200 and 250 thresholds) agree for text without surrogate pairs.
- Text.LowerChar: `toLowerCase` is modelled for ASCII letters only.
- Sorting.Sort: the sort is stable in the code, as `Array.prototype.sort` is since ES2019, but the contracts promise only a sorted permutation; the relative order of ties, such as undated articles, is not stated.
- MapView.CompareTitles: `localeCompare` is modelled as code-unit lexicographic order, not locale collation.
- MapView.Importance: `Number(…)` conversion and NaN are not modelled; importance values are reals.
- Dashboard.FormatTimeMs: it works on whole milliseconds, and NaN is not modelled.
- Dashboard.ArticlesToProcessCount: the limit is a natural number, so negative or fractional limits are not modelled.
- MapView.CategoryKeysOrder: the statement that keys are free of duplicates assumes `CATEGORY_ORDER` has none.
- MapView.UpdateViews: with no map the code returns early, so its `zoomOK` fallback for a missing map is never reached and is not modelled separately.
- `CATEGORY_ORDER`, `START_DATE`, `getCanonicalCategory`, `getCategoryDetails` and `DEFAULT_PIN_COLOR` come from constants.ts, which is not part of this model; they are the `Catalogue` parameter and the `start` argument.
- The progress callbacks of the batch analysis, the console logging, the notifications and the auto-refresh log lines are not modelled. The analysis is the per-article `AnalysisOutcome` parameter; geminiService.ts is not part of this model.
- Dashboard.Analyse: the classifier's `titre`, `lien` and `date` keys are also spread into the analysed article, but nothing in the model reads them, so they are not carried.
- React state, effects, timers, the auto-refresh interval and the debounce are not modelled. Each handler is a function from the old state to the new state.
- Rendering and the Leaflet map are not modelled.
- Where descriptions of the application differ from the code, the code is followed:
  - articles with an empty id are not dropped;
  - the scraper reads og:image only, with no twitter:image or JSON-LD tiers;
  - the in-container cleanup is commented out and is not modelled.

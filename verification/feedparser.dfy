/** `parseRSSFeed` (rssService.ts): one RSS `<item>` or Atom `<entry>` becomes
    one `RawArticle`. XML parsing and element lookup are abstracted: each
    entry arrives as the already-extracted texts and attributes the code
    reads from it. */
module FeedParser {
  import opened Wrappers
  import opened Text
  import opened Articles

  /** The first element matching
      `media\:content, content[type^="image"], link[rel="enclosure"][type^="image"]`:
      its `url` and `href` attributes. */
  datatype MediaElement = MediaElement(url: Option<string>, href: Option<string>)

  /** What the code reads from one `<item>`/`<entry>`. `None` stands for a
      missing element (or attribute); `Some("")` for an empty one. */
  datatype FeedEntry = FeedEntry(
    // textContent of the first <title>
    title: Option<string>,
    // href of the first link[rel="alternate"] or link without rel
    atomHref: Option<string>,
    // textContent of the first <link>
    linkText: Option<string>,
    // textContent of the first present element among pubDate, dc:date, published, updated
    dateText: Option<string>,
    // textContent of the first <description>, <summary> and <content>
    description: Option<string>,
    summary: Option<string>,
    content: Option<string>,
    media: Option<MediaElement>,
    // url of the first enclosure[url][type^="image"]
    enclosureUrl: Option<string>)

  /** The parsed document: all `<item>` elements and all `<entry>` elements. */
  datatype FeedDocument = FeedDocument(items: seq<FeedEntry>, entries: seq<FeedEntry>)

  const NoTitle: string := "No title"
  const DescriptionLimit: nat := 250
  const Ellipsis: string := "..."
  const PlaceholderPrefix: string := "https://picsum.photos/seed/"
  const PlaceholderSuffix: string := "/160/90"
  const PlaceholderSeedLength: nat := 20
  /** Base for resolving a description image when the entry has no link. */
  const LocalBase: string := "http://localhost"

  /** RSS wins: entries are read only from a document without any item. */
  function SelectEntries(doc: FeedDocument): (r: seq<FeedEntry>)
    ensures |doc.items| > 0 ==> r == doc.items
    ensures |doc.items| == 0 ==> r == doc.entries
  {
    if |doc.items| > 0 then doc.items else doc.entries
  }

  /** `titleElement?.textContent?.trim() || "No title"`. */
  function EntryTitle(e: FeedEntry): (r: string)
    ensures r != ""
    ensures e.title.Some? && Trim(e.title.value) != "" ==> r == Trim(e.title.value)
    ensures e.title.None? || Trim(e.title.value) == "" ==> r == NoTitle
    ensures r == NoTitle || Trimmed(r)
  {
    if e.title.Some? then OrElse(Some(Trim(e.title.value)), NoTitle) else NoTitle
  }

  /** The Atom `href` when present and non-empty, else the text of the
      first `<link>`, else "". */
  function EntryLink(e: FeedEntry): (r: string)
    ensures e.atomHref.Some? && e.atomHref.value != "" ==> r == e.atomHref.value
    ensures (e.atomHref.None? || e.atomHref.value == "") && e.linkText.Some? ==> r == e.linkText.value
    ensures (e.atomHref.None? || e.atomHref.value == "") && e.linkText.None? ==> r == ""
  {
    if e.atomHref.Some? && e.atomHref.value != "" then e.atomHref.value
    else if e.linkText.Some? then e.linkText.value
    else ""
  }

  /** The locale-formatted date, when the date element has text.
      `formatDate` is `new Date(t).toLocaleDateString('fr-FR', …)`, which
      yields "Invalid Date" rather than throwing. */
  function EntryDate(e: FeedEntry, formatDate: string -> string): (r: Option<string>)
    ensures r.Some? <==> e.dateText.Some? && e.dateText.value != ""
    ensures r.Some? ==> r.value == formatDate(e.dateText.value)
  {
    if e.dateText.Some? && e.dateText.value != "" then Some(formatDate(e.dateText.value)) else None
  }

  /** The raw description: the first non-empty of description, summary and
      content, else "". */
  function RawDescription(e: FeedEntry): (r: string)
    ensures e.description.Some? && e.description.value != "" ==> r == e.description.value
    ensures OrElse(e.description, "") == "" && e.summary.Some? && e.summary.value != "" ==>
      r == e.summary.value
    ensures OrElse(e.description, "") == "" && OrElse(e.summary, "") == "" ==> r == OrElse(e.content, "")
  {
    OrElse(e.description, OrElse(e.summary, OrElse(e.content, "")))
  }

  /** The description as plain text: tags become spaces, white-space runs
      collapse to one space, the ends are trimmed. */
  function PlainText(raw: string): (r: string)
    ensures |r| <= |raw|
    ensures TagFree(r) && Trimmed(r) && NoDoubleSpace(r)
    ensures forall i :: 0 <= i < |r| && IsSpace(r[i]) ==> r[i] == ' '
  {
    var stripped := StripTags(raw);
    StripTagsTagFree(raw);
    var collapsed := CollapseRuns(stripped);
    CollapseRunsTagFree(stripped);
    TrimTagFree(collapsed);
    PlainSpaces(collapsed);
    Trim(collapsed)
  }

  lemma PlainSpaces(s: string)
    requires forall i :: 0 <= i < |s| && IsSpace(s[i]) ==> s[i] == ' '
    ensures forall i :: 0 <= i < |Trim(s)| && IsSpace(Trim(s)[i]) ==> Trim(s)[i] == ' '
  {
    var k := TrimIsSlice(s);
    var r := Trim(s);
    forall i | 0 <= i < |r| && IsSpace(r[i]) ensures r[i] == ' ' {
      assert r[i] == s[k + i];
    }
  }

  /** `text` cut to 250 characters, with "..." appended when `long`. */
  function Shorten(text: string, long: bool): (r: string)
    ensures |r| <= DescriptionLimit + |Ellipsis|
    ensures !long ==> r == Take(text, DescriptionLimit)
    ensures long ==> r == Take(text, DescriptionLimit) + Ellipsis
    ensures long ==>
      |r| >= |Ellipsis| && r[|r| - |Ellipsis|..] == Ellipsis
      && StartsWith(text, r[..|r| - |Ellipsis|])
  {
    var cut := Take(text, DescriptionLimit);
    if long then
      var r := cut + Ellipsis;
      assert r[|r| - |Ellipsis|..] == Ellipsis && r[..|r| - |Ellipsis|] == cut;
      r
    else cut
  }

  /** Shortening adds no tag. */
  lemma ShortenTagFree(text: string, long: bool)
    requires TagFree(text)
    ensures TagFree(Shorten(text, long))
  {
    TakeTagFree(text, DescriptionLimit);
    if long {
      TagFreeAppend(Take(text, DescriptionLimit), Ellipsis);
    }
  }

  /** The plain text cut to 250 characters, with "..." appended when the
      raw text was longer than 250. */
  function CleanDescription(raw: string): (r: string)
    ensures |r| <= DescriptionLimit + |Ellipsis|
    ensures |raw| <= DescriptionLimit ==> r == PlainText(raw)
    ensures |raw| > DescriptionLimit ==> r == Take(PlainText(raw), DescriptionLimit) + Ellipsis
    ensures |raw| > DescriptionLimit ==>
      |r| >= |Ellipsis| && r[|r| - |Ellipsis|..] == Ellipsis
      && StartsWith(PlainText(raw), r[..|r| - |Ellipsis|])
    ensures TagFree(r)
  {
    ShortenTagFree(PlainText(raw), |raw| > DescriptionLimit);
    Shorten(PlainText(raw), |raw| > DescriptionLimit)
  }

  /** The first attribute of the media element that is non-empty: `url`,
      then `href`. */
  function MediaImage(e: FeedEntry): (r: Option<string>)
    ensures r.Some? ==> r.value != ""
    ensures e.media.None? ==> r.None?
    ensures e.media.Some? && e.media.value.url.Some? && e.media.value.url.value != "" ==> r == e.media.value.url
    ensures e.media.Some? && OrElse(e.media.value.url, "") == "" ==>
      r == (if OrElse(e.media.value.href, "") != "" then e.media.value.href else None)
  {
    if e.media.Some? then FirstTruthy(e.media.value.url, e.media.value.href) else None
  }

  /** The `url` of an image enclosure, when non-empty. */
  function EnclosureImage(e: FeedEntry): (r: Option<string>)
    ensures r.Some? ==> r.value != "" && e.enclosureUrl == r
    ensures e.enclosureUrl.Some? && e.enclosureUrl.value != "" ==> r == e.enclosureUrl
  {
    FirstTruthy(e.enclosureUrl, None)
  }

  /** `src="v"` starts at `k` and its closing quote is at `m`: `v`, the
      text between, is non-empty and holds neither `"` nor `>`. This is
      `src="([^">]+)"` matched at `k`. */
  ghost predicate SrcAt(s: string, k: nat, m: nat) {
    k + 5 < m < |s| && s[k..k + 5] == "src=\"" && s[m] == '"'
    && forall j :: k + 5 <= j < m ==> s[j] != '"' && s[j] != '>'
  }

  /** The capture of `src="([^">]+)"` starting at `k`, when it matches. */
  function SrcValueAt(s: string, k: nat): (r: Option<string>)
    requires k <= |s|
    ensures r.Some? ==> |r.value| > 0 && '"' !in r.value && '>' !in r.value
    ensures r.Some? ==> SrcAt(s, k, k + 5 + |r.value|) && r.value == s[k + 5..k + 5 + |r.value|]
    ensures r.None? ==> forall m :: !SrcAt(s, k, m)
  {
    if k + 5 <= |s| && s[k..k + 5] == "src=\"" then
      var m := ValueEnd(s, k + 5);
      if m > k + 5 && m < |s| && s[m] == '"' then Some(s[k + 5..m]) else None
    else None
  }

  /** First index at or after `from` holding `"` or `>`, else |s|. */
  function ValueEnd(s: string, from: nat): (m: nat)
    requires from <= |s|
    ensures from <= m <= |s|
    ensures forall j :: from <= j < m ==> s[j] != '"' && s[j] != '>'
    ensures m < |s| ==> s[m] == '"' || s[m] == '>'
    decreases |s| - from
  {
    if from == |s| || s[from] == '"' || s[from] == '>' then from else ValueEnd(s, from + 1)
  }

  /** Greedy `[^>]+` backtracks from its longest extent: the last position
      in [lo, k] where `src="…"` matches. */
  function LastSrc(s: string, lo: nat, k: nat): (r: Option<nat>)
    requires lo <= k <= |s|
    ensures r.Some? ==> lo <= r.value <= k && SrcValueAt(s, r.value).Some?
    ensures r.Some? ==> forall j :: r.value < j <= k ==> SrcValueAt(s, j).None?
    ensures r.None? ==> forall j :: lo <= j <= k ==> SrcValueAt(s, j).None?
    decreases k
  {
    if SrcValueAt(s, k).Some? then Some(k)
    else if k == lo then None
    else LastSrc(s, lo, k - 1)
  }

  /** Where the `<img` tag starting at `i` ends: its first `>`, or the end
      of the text. `[^>]+` cannot run past it. */
  function TagLimit(s: string, i: nat): (e: nat)
    requires i + 4 <= |s|
    ensures i + 4 <= e <= |s|
    ensures forall j :: i + 4 <= j < e ==> s[j] != '>'
    ensures e < |s| ==> s[e] == '>'
  {
    FindChar(s, '>', i + 4).GetOr(|s|)
  }

  predicate OpensImg(s: string, i: nat) {
    i + 4 <= |s| && s[i..i + 4] == "<img"
  }

  /** The match of `/<img[^>]+src="([^">]+)"/` that starts at `i`, if any:
      the capture of the last `src="…"` that starts after at least one
      character and before the tag's first `>`. */
  function ImgMatchAt(s: string, i: nat): (r: Option<string>)
    requires i <= |s|
    ensures r.Some? ==> |r.value| > 0 && '"' !in r.value && '>' !in r.value
    ensures r.Some? ==> OpensImg(s, i)
    ensures OpensImg(s, i) ==>
      (r.None? <==> forall k :: i + 5 <= k <= TagLimit(s, i) ==> SrcValueAt(s, k).None?)
    ensures r.Some? ==> exists k :: (i + 5 <= k <= TagLimit(s, i) && r == SrcValueAt(s, k)
      && forall k' :: k < k' <= TagLimit(s, i) ==> SrcValueAt(s, k').None?)
  {
    if OpensImg(s, i) then
      var e := TagLimit(s, i);
      if e >= i + 5 then
        match LastSrc(s, i + 5, e)
        case Some(k) => SrcValueAt(s, k)
        case None => None
      else None
    else None
  }

  /** The leftmost position at or after `i` where the regex matches. */
  function FirstImg(s: string, i: nat): (r: Option<nat>)
    requires i <= |s|
    ensures r.Some? ==> i <= r.value < |s| && ImgMatchAt(s, r.value).Some?
    ensures r.Some? ==> forall j :: i <= j < r.value ==> ImgMatchAt(s, j).None?
    ensures r.None? ==> forall j :: i <= j <= |s| ==> ImgMatchAt(s, j).None?
    decreases |s| - i
  {
    if i == |s| then None
    else if ImgMatchAt(s, i).Some? then Some(i)
    else FirstImg(s, i + 1)
  }

  /** `s.match(/<img[^>]+src="([^">]+)"/)[1]`, searching from `i`: the
      capture of the leftmost match. */
  function ImgSrc(s: string, i: nat): (r: Option<string>)
    requires i <= |s|
    ensures r.Some? ==> |r.value| > 0 && '"' !in r.value && '>' !in r.value
    ensures r.Some? ==> exists j :: (i <= j < |s| && r == ImgMatchAt(s, j)
      && forall j' :: i <= j' < j ==> ImgMatchAt(s, j').None?)
    ensures r.None? ==> forall j :: i <= j <= |s| ==> ImgMatchAt(s, j).None?
  {
    match FirstImg(s, i)
    case Some(j) => ImgMatchAt(s, j)
    case None => None
  }

  /** The first `<img src>` of the raw description, resolved against the link
      (or a local base when the link is empty), kept only for http(s). */
  function DescriptionImage(raw: string, link: string, resolve: Resolver): (r: Option<string>)
    ensures r.Some? ==> r.value != ""
    ensures var base := OrElse(Some(link), LocalBase);
      r.Some? <==> (
        && ImgSrc(raw, 0).Some?
        && resolve(ImgSrc(raw, 0).value, base).Some?
        && resolve(ImgSrc(raw, 0).value, base).value.protocol in {"http:", "https:"}
        && resolve(ImgSrc(raw, 0).value, base).value.href != "")
    ensures r.Some? ==> r.value == resolve(ImgSrc(raw, 0).value, OrElse(Some(link), LocalBase)).value.href
  {
    if raw == "" then None
    else
      match ImgSrc(raw, 0)
      case None => None
      case Some(src) =>
        match resolve(src, OrElse(Some(link), LocalBase))
        case None => None
        case Some(u) =>
          // a resolved href that is empty would be falsy and fall through
          if (u.protocol == "http:" || u.protocol == "https:") && u.href != "" then Some(u.href) else None
  }

  /** `https://picsum.photos/seed/<seed>/160/90` with the seed built from
      the first 20 alphanumerics of the title and the entry index. */
  function Placeholder(title: string, index: nat): (r: string)
    ensures StartsWith(r, PlaceholderPrefix)
    ensures |r| > |PlaceholderPrefix| + |PlaceholderSuffix|
    ensures r[|r| - |PlaceholderSuffix|..] == PlaceholderSuffix
    ensures r == PlaceholderPrefix + Take(AlnumOnly(title), PlaceholderSeedLength) + NatToString(index) + PlaceholderSuffix
  {
    // the seed is alphanumeric, so encodeURIComponent leaves it unchanged
    var seed := Take(AlnumOnly(title), PlaceholderSeedLength) + NatToString(index);
    PlaceholderPrefix + seed + PlaceholderSuffix
  }

  /** Entries with the same title at different positions get different
      placeholders. */
  lemma PlaceholderPerIndex(title: string, i: nat, j: nat)
    requires i != j
    ensures Placeholder(title, i) != Placeholder(title, j)
  {
    var pre := PlaceholderPrefix + Take(AlnumOnly(title), PlaceholderSeedLength);
    var a := NatToString(i);
    var b := NatToString(j);
    if Placeholder(title, i) == Placeholder(title, j) {
      assert pre + a + PlaceholderSuffix == pre + b + PlaceholderSuffix;
      assert |a| == |b|;
      assert a == (pre + a + PlaceholderSuffix)[|pre|..|pre| + |a|];
      assert b == (pre + b + PlaceholderSuffix)[|pre|..|pre| + |b|];
      NatToStringInjective(i, j);
    }
  }

  /** The image cascade: media element, image enclosure, description
      `<img>`, placeholder. */
  function EntryImage(e: FeedEntry, raw: string, link: string, title: string, index: nat, resolve: Resolver): (r: string)
    ensures r != ""
    ensures MediaImage(e).Some? ==> r == MediaImage(e).value
    ensures MediaImage(e).None? && EnclosureImage(e).Some? ==> r == EnclosureImage(e).value
    ensures MediaImage(e).None? && EnclosureImage(e).None? && DescriptionImage(raw, link, resolve).Some? ==>
      r == DescriptionImage(raw, link, resolve).value
    ensures MediaImage(e).None? && EnclosureImage(e).None? && DescriptionImage(raw, link, resolve).None? ==>
      r == Placeholder(title, index)
  {
    match MediaImage(e)
    case Some(u) => u
    case None =>
      match EnclosureImage(e)
      case Some(u) => u
      case None =>
        match DescriptionImage(raw, link, resolve)
        case Some(u) => u
        case None => Placeholder(title, index)
  }

  /** The id of an entry without a link: `${source}-${Date.now()}-${i}-${random}`.
      The clock reading and the random hex digits are parameters. */
  function SyntheticId(sourceName: string, now: nat, index: nat, noise: string): (r: string)
    ensures StartsWith(r, sourceName + "-")
  {
    sourceName + "-" + NatToString(now) + "-" + NatToString(index) + "-" + noise
  }

  /** One entry, at position `index`, of the feed named `sourceName`.
      `now(index)` and `noise(index)` are the clock reading and the random
      digits taken while that entry is built. */
  function ParseEntry(e: FeedEntry, index: nat, sourceName: string, formatDate: string -> string,
                      resolve: Resolver, now: nat -> nat, noise: nat -> string): (a: RawArticle)
    ensures a.title == EntryTitle(e) && a.title != ""
    ensures a.link == EntryLink(e)
    ensures a.link != "" ==> a.id == a.link
    ensures a.link == "" ==> a.id == SyntheticId(sourceName, now(index), index, noise(index))
    ensures a.link == "" ==> StartsWith(a.id, sourceName + "-")
    ensures a.id != ""
    ensures a.pubDate == EntryDate(e, formatDate)
    ensures a.source == sourceName
    ensures a.description == Some(CleanDescription(RawDescription(e)))
    ensures a.description.Some? && |a.description.value| <= DescriptionLimit + |Ellipsis|
    ensures a.imageUrl == Some(EntryImage(e, RawDescription(e), EntryLink(e), EntryTitle(e), index, resolve))
    ensures a.imageUrl.Some? && a.imageUrl.value != ""
  {
    var title := EntryTitle(e);
    var link := EntryLink(e);
    var raw := RawDescription(e);
    RawArticle(
      id := if link != "" then link else SyntheticId(sourceName, now(index), index, noise(index)),
      title := title,
      link := link,
      pubDate := EntryDate(e, formatDate),
      description := Some(CleanDescription(raw)),
      source := sourceName,
      imageUrl := Some(EntryImage(e, raw, link, title, index, resolve)))
  }

  /** `parseRSSFeed(xml, sourceName)`: one article per selected entry, in
      document order. */
  function ParseFeed(doc: FeedDocument, sourceName: string, formatDate: string -> string,
                     resolve: Resolver, now: nat -> nat, noise: nat -> string): (r: seq<RawArticle>)
    ensures |r| == |SelectEntries(doc)|
    ensures forall i :: 0 <= i < |r| ==>
      r[i] == ParseEntry(SelectEntries(doc)[i], i, sourceName, formatDate, resolve, now, noise)
    ensures |doc.items| > 0 ==> (|r| == |doc.items|
      && forall i :: 0 <= i < |r| ==> r[i].link == EntryLink(doc.items[i]))
    ensures |doc.items| == 0 ==> (|r| == |doc.entries|
      && forall i :: 0 <= i < |r| ==> r[i].link == EntryLink(doc.entries[i]))
    ensures forall i :: 0 <= i < |r| ==>
      && r[i].title != ""
      && r[i].id != ""
      && (r[i].link != "" ==> r[i].id == r[i].link)
      && (r[i].link == "" ==> StartsWith(r[i].id, sourceName + "-"))
      && r[i].source == sourceName
      && r[i].imageUrl.Some? && r[i].imageUrl.value != ""
      && r[i].description.Some? && |r[i].description.value| <= DescriptionLimit + |Ellipsis|
  {
    var entries := SelectEntries(doc);
    seq(|entries|, i requires 0 <= i < |entries| =>
      ParseEntry(entries[i], i, sourceName, formatDate, resolve, now, noise))
  }
}

/** Record shapes shared by the feed reader, the dashboard and the map
    (types.ts, types-1.ts), and the one platform service the model keeps
    abstract everywhere: WHATWG URL parsing. */
module Articles {
  import opened Wrappers

  /** A configured feed: display name and feed URL. */
  datatype RssSource = RssSource(name: string, url: string)

  /** A feed entry after normalisation. `description` and `imageUrl` are
      optional in the type; the feed parser always fills them. */
  datatype RawArticle = RawArticle(
    id: string,
    title: string,
    link: string,
    pubDate: Option<string>,
    description: Option<string>,
    source: string,
    imageUrl: Option<string>)

  /** What the classifier adds to an article. `importance` is a score in
      [0.0, 1.0]; a missing coordinate is `null`. */
  datatype AnalysisData = AnalysisData(
    importance: real,
    categorie: string,
    localisation: string,
    latitude: Option<real>,
    longitude: Option<real>)

  /** `{...article, ...analysis}`. */
  datatype AnalyzedArticle = AnalyzedArticle(article: RawArticle, analysis: AnalysisData)

  /** The part of a parsed `URL` object the code reads: `protocol` (with its
      trailing colon, e.g. "https:") and the serialised `href`. */
  datatype Url = Url(protocol: string, href: string)

  /** `new URL(ref, base)`: the resolved URL, or `None` where the
      constructor throws. Resolution itself (section 5.2 of RFC 3986, as
      refined by the WHATWG URL Standard) is not modelled. */
  type Resolver = (string, string) -> Option<Url>
}

/** The decision logic of `scrapeArticleContent` (articleScraper.ts): the
    status gate, the og:image lookup, the cascade over content selectors
    with its fallback to the page body, and the mapping of the outcome to
    `{textContent, mainImageUrl}`.

    The HTTP request and the HTML parser are not modelled. A response is
    either an exception or a status with the parsed page; the page is seen
    through what the code reads from it: the two og:image `content`
    attributes of the page as loaded, and, once the unwanted sections have
    been removed, the text of the first element each selector matches and
    the text of `<body>`. */
module Scraper {
  import opened Wrappers
  import opened Text
  import opened Articles

  /** What the code reads from the page. The og:image attributes come from
      the page as loaded; `firstMatch(sel)`, the text of the first element
      matching `sel` or `None` when nothing matches, and `body` come from
      the page after the unwanted sections are removed. */
  datatype Page = Page(
    ogProperty: Option<string>,
    ogName: Option<string>,
    firstMatch: string -> Option<string>,
    body: Option<string>)

  /** `axios.get(url)`: an exception, or a status and the parsed page. */
  datatype Response = Threw | Responded(status: int, page: Page)

  /** `ScrapedData`: either field may be `null`. */
  datatype ScrapedData = ScrapedData(textContent: Option<string>, mainImageUrl: Option<string>)

  const Nothing := ScrapedData(None, None)

  /** The content selectors, most specific first. */
  const ContentSelectors: seq<string> := [
    "article[class*=\"content\"]", "article[class*=\"body\"]", "article[id*=\"content\"]", "article[id*=\"body\"]",
    "div[class*=\"article-content\"]", "div[class*=\"article-body\"]", "div[id*=\"article-content\"]", "div[id*=\"article-body\"]",
    "div[class*=\"post-content\"]", "div[class*=\"post-body\"]", "div[id*=\"post-content\"]", "div[id*=\"post-body\"]",
    "main[role=\"main\"]", "article", "main",
    "div[class*=\"content\"]", "div[id*=\"content\"]", "div[class*=\"main\"]", "div[id*=\"main\"]"
  ]

  /** A candidate is accepted in the loop when strictly longer than this;
      the body replaces the last candidate when it is strictly shorter. */
  const DecentLength := 200

  // ---------------------------------------------------------------------
  // The main image.

  /** `$('meta[property="og:image"]').attr('content') || $('meta[name="og:image"]').attr('content')`,
      resolved against the page URL; a URL that does not parse gives no
      image. */
  function OgImage(page: Page, pageUrl: string, resolve: Resolver): (r: Option<string>)
    ensures r.Some? <==> (FirstTruthy(page.ogProperty, page.ogName).Some?
      && resolve(FirstTruthy(page.ogProperty, page.ogName).value, pageUrl).Some?)
    ensures r.Some? ==> r.value == resolve(FirstTruthy(page.ogProperty, page.ogName).value, pageUrl).value.href
  {
    match FirstTruthy(page.ogProperty, page.ogName)
    case None => None
    case Some(raw) =>
      match resolve(raw, pageUrl)
      case None => None
      case Some(u) => Some(u.href)
  }

  // ---------------------------------------------------------------------
  // The main text.

  /** For every selector, in list order, the whitespace-normalised text
      of its first match, or `None` when it matches nothing. */
  function Candidates(page: Page): (r: seq<Option<string>>)
    ensures |r| == |ContentSelectors|
    ensures forall i :: 0 <= i < |r| ==>
      r[i] == match page.firstMatch(ContentSelectors[i]) case None => None case Some(t) => Some(Normalise(t))
    ensures AllNormalised(r)
  {
    seq(|ContentSelectors|, i requires 0 <= i < |ContentSelectors| =>
      match page.firstMatch(ContentSelectors[i])
      case None => None
      case Some(t) => Some(Normalise(t)))
  }

  /** Every candidate is normalised text. */
  ghost predicate AllNormalised(cands: seq<Option<string>>) {
    forall i :: 0 <= i < |cands| && cands[i].Some? ==> Trimmed(cands[i].value) && NoDoubleSpace(cands[i].value)
  }

  /** A candidate long enough to stop the loop. */
  predicate Accepted(c: Option<string>) {
    c.Some? && |c.value| > DecentLength
  }

  /** The first candidate at or after `from` that is accepted. */
  function FirstAccepted(cands: seq<Option<string>>, from: nat): (r: Option<nat>)
    requires from <= |cands|
    ensures r.Some? ==>
      from <= r.value < |cands| && Accepted(cands[r.value])
      && forall j :: from <= j < r.value ==> !Accepted(cands[j])
    ensures r.None? ==> forall j :: from <= j < |cands| ==> !Accepted(cands[j])
    decreases |cands| - from
  {
    if from == |cands| then None
    else if Accepted(cands[from]) then Some(from)
    else FirstAccepted(cands, from + 1)
  }

  /** The last of the first `n` candidates that is present, or "" when
      none of them is: what `bestTextContent` holds after `n` rounds of the
      loop without a break. */
  function LastCandidate(cands: seq<Option<string>>, n: nat): (r: string)
    requires n <= |cands|
    ensures r != "" ==> exists j :: 0 <= j < n && cands[j] == Some(r)
    ensures (forall j :: 0 <= j < n ==> cands[j].None?) ==> r == ""
  {
    if n == 0 then ""
    else match cands[n - 1]
      case Some(t) => t
      case None => LastCandidate(cands, n - 1)
  }

  /** The text the code settles on: the first accepted candidate; failing
      that, the body when the last candidate is shorter than 200 characters
      and the page has a body; otherwise the last candidate. */
  function ChosenText(cands: seq<Option<string>>, body: Option<string>): string {
    match FirstAccepted(cands, 0)
    case Some(k) => cands[k].value
    case None =>
      var last := LastCandidate(cands, |cands|);
      if |last| < DecentLength && body.Some? then Normalise(body.value) else last
  }

  /** None of the first `n` candidates is accepted. */
  predicate NoneAccepted(cands: seq<Option<string>>, n: nat)
    requires n <= |cands|
  {
    n == 0 || (!Accepted(cands[n - 1]) && NoneAccepted(cands, n - 1))
  }

  /** Skipping candidates that are not accepted does not change which one
      is accepted first. */
  lemma {:induction false} SkipUnaccepted(cands: seq<Option<string>>, n: nat)
    requires n <= |cands| && NoneAccepted(cands, n)
    ensures FirstAccepted(cands, 0) == FirstAccepted(cands, n)
  {
    if n > 0 {
      SkipUnaccepted(cands, n - 1);
    }
  }

  lemma {:induction false} NoneAcceptedBelow(cands: seq<Option<string>>, n: nat)
    requires n <= |cands|
    requires forall j :: 0 <= j < n ==> !Accepted(cands[j])
    ensures NoneAccepted(cands, n)
  {
    if n > 0 {
      NoneAcceptedBelow(cands, n - 1);
    }
  }

  /** Once a candidate is accepted, neither the later selectors nor the
      body can change the chosen text. */
  lemma LaterSelectorsIgnored(a: seq<Option<string>>, b: seq<Option<string>>,
                              bodyA: Option<string>, bodyB: Option<string>, k: nat)
    requires FirstAccepted(a, 0) == Some(k)
    requires k < |b| && a[..k + 1] == b[..k + 1]
    ensures FirstAccepted(b, 0) == Some(k)
    ensures ChosenText(a, bodyA) == ChosenText(b, bodyB) == a[k].value
  {
    assert forall j :: 0 <= j <= k ==> a[j] == b[j] by {
      forall j | 0 <= j <= k ensures a[j] == b[j] {
        assert a[..k + 1][j] == b[..k + 1][j];
      }
    }
    NoneAcceptedBelow(b, k);
    SkipUnaccepted(b, k);
  }

  /** The last candidate of normalised candidates is normalised. */
  lemma {:induction false} LastCandidateNormalised(cands: seq<Option<string>>, n: nat)
    requires n <= |cands| && AllNormalised(cands)
    ensures Trimmed(LastCandidate(cands, n)) && NoDoubleSpace(LastCandidate(cands, n))
  {
    if n > 0 && cands[n - 1].None? {
      LastCandidateNormalised(cands, n - 1);
    }
  }

  /** The chosen text of normalised candidates is normalised. */
  lemma ChosenNormalised(cands: seq<Option<string>>, body: Option<string>)
    requires AllNormalised(cands)
    ensures Trimmed(ChosenText(cands, body)) && NoDoubleSpace(ChosenText(cands, body))
  {
    LastCandidateNormalised(cands, |cands|);
  }

  /** The selector loop: it stops at the first accepted candidate, and
      otherwise ends holding the last one present. */
  method RunSelectors(cands: seq<Option<string>>) returns (best: string, stopped: Option<nat>)
    ensures stopped == FirstAccepted(cands, 0)
    ensures stopped.Some? ==> best == cands[stopped.value].value
    ensures stopped.None? ==> best == LastCandidate(cands, |cands|)
  {
    best := "";
    var i := 0;
    while i < |cands|
      invariant 0 <= i <= |cands|
      invariant best == LastCandidate(cands, i)
      invariant NoneAccepted(cands, i)
    {
      if cands[i].Some? {
        best := cands[i].value;
        if |best| > DecentLength {
          SkipUnaccepted(cands, i);
          return best, Some(i);
        }
      }
      i := i + 1;
    }
    SkipUnaccepted(cands, i);
    stopped := None;
  }

  /** The selector loop followed by the body fallback. */
  method SelectText(page: Page) returns (best: string)
    ensures best == ChosenText(Candidates(page), page.body)
    ensures Trimmed(best) && NoDoubleSpace(best)
  {
    var cands := Candidates(page);
    ChosenNormalised(cands, page.body);
    var stopped;
    best, stopped := RunSelectors(cands);
    if |best| < DecentLength && page.body.Some? {
      best := Normalise(page.body.value);
    }
  }

  /** `x || null` for a string. */
  function NonEmpty(s: Option<string>): (r: Option<string>)
    ensures r.Some? <==> s.Some? && s.value != ""
    ensures r.Some? ==> r == s
  {
    if s.Some? && s.value != "" then s else None
  }

  /** `scrapeArticleContent(url)`. */
  method Scrape(response: Response, pageUrl: string, resolve: Resolver) returns (r: ScrapedData)
    ensures response.Threw? ==> r == Nothing
    ensures response.Responded? && response.status != 200 ==> r == Nothing
    ensures response.Responded? && response.status == 200 ==>
      r.textContent == NonEmpty(Some(ChosenText(Candidates(response.page), response.page.body)))
      && r.mainImageUrl == NonEmpty(OgImage(response.page, pageUrl, resolve))
    ensures r.textContent.Some? ==> r.textContent.value != "" && Trimmed(r.textContent.value) && NoDoubleSpace(r.textContent.value)
    ensures r.mainImageUrl.Some? ==> r.mainImageUrl.value != ""
  {
    match response {
      case Threw =>
        return Nothing;
      case Responded(status, page) =>
        if status != 200 {
          return Nothing;
        }
        var image := OgImage(page, pageUrl, resolve);
        var text := SelectText(page);
        if text == "" && NonEmpty(image).None? {
          return Nothing;
        }
        r := ScrapedData(NonEmpty(Some(text)), NonEmpty(image));
    }
  }
}

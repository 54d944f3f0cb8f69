/** The article map (MapApp.tsx): turning the GeoJSON features into marker
    articles, ordering the category keys of the filter panel, the filter
    behind the map and the sidebar, and the sidebar's order.

    The category catalogue (`getCanonicalCategory`, `getCategoryDetails`,
    `DEFAULT_PIN_COLOR`, `CATEGORY_ORDER`) lives in a constants module that
    is not part of this model, so it is a parameter, and so is the date
    parser behind `new Date(string)`. Instants are milliseconds since the
    epoch; `START_DATE` is the parameter `start`. The map is seen only
    through its zoom level: `None` when no map instance exists. */
module MapView {
  import opened Wrappers
  import opened Text
  import opened Seqs
  import opened Sorting
  import Ingest

  /** The properties of a feature the component reads. `categorieAccent`
      is the property spelled `catégorie`. */
  datatype FeatureProps = FeatureProps(
    categorieAccent: Option<string>,
    categorie: Option<string>,
    category: Option<string>,
    importanceGlobale: Option<real>,
    importance: Option<real>,
    date: Option<string>,
    titre: Option<string>,
    title: Option<string>,
    lien: Option<string>,
    url: Option<string>,
    localisation: Option<string>,
    description: Option<string>,
    imageUrl: Option<string>)

  /** A point feature; `coordinates` is the GeoJSON pair (longitude, latitude). */
  datatype GeoFeature = GeoFeature(coordinates: (real, real), properties: FeatureProps)

  /** What the component takes from outside: the category catalogue and
      the date parser (`None` where `new Date(s)` is an invalid date). */
  datatype Catalogue = Catalogue(
    canonical: Option<string> -> string,
    color: string -> Option<string>,
    defaultPinColor: string,
    order: seq<string>,
    parseDate: string -> Option<int>)

  datatype MarkerArticle = MarkerArticle(
    idx: nat,
    title: string,
    cat: string,
    date: string,
    parsedDate: Option<int>,
    imp: real,
    lien: string,
    color: string,
    lat: real,
    lon: real,
    minZoom: int,
    localisation: Option<string>,
    description: Option<string>,
    imageUrl: Option<string>)

  const Untitled := "Sans titre"
  const NoLink := "#"
  const AllCategories := "all"

  /** The right end of the date slider: no lower bound on dates. */
  const LastDay := 29

  // ---------------------------------------------------------------------
  // From features to marker articles.

  /** The least zoom level at which a marker is shown: important articles
      from the world view on, minor ones only close up. */
  function MinZoom(imp: real): (z: int)
    ensures z == 1 || z == 3 || z == 5
    ensures z == 1 <==> imp >= 0.6
    ensures z == 5 <==> imp < 0.3
  {
    if imp >= 0.6 then 1 else if imp >= 0.3 then 3 else 5
  }

  /** A more important article is never harder to see. */
  lemma MinZoomAntitone(a: real, b: real)
    requires a <= b
    ensures MinZoom(b) <= MinZoom(a)
  {
  }

  /** `importance_globale ?? importance ?? 0`: only a missing value falls
      through, so an explicit 0 is kept. */
  function Importance(p: FeatureProps): (r: real)
    ensures p.importanceGlobale.Some? ==> r == p.importanceGlobale.value
    ensures p.importanceGlobale.None? && p.importance.Some? ==> r == p.importance.value
    ensures p.importanceGlobale.None? && p.importance.None? ==> r == 0.0
  {
    p.importanceGlobale.GetOr(p.importance.GetOr(0.0))
  }

  /** The parsed date: only a non-empty date string is parsed, and an
      invalid date gives none. */
  function ParsedDate(date: Option<string>, parse: string -> Option<int>): (r: Option<int>)
    ensures r.Some? <==> date.Some? && date.value != "" && parse(date.value).Some?
    ensures r.Some? ==> r == parse(date.value)
  {
    if date.Some? && date.value != "" then parse(date.value) else None
  }

  /** The marker article for the feature at position `idx`. Title and link
      fall back on falsy values (an empty string is skipped), importance
      only on missing ones. */
  function ToMarker(f: GeoFeature, idx: nat, catalogue: Catalogue): (r: MarkerArticle)
    ensures r.idx == idx
    ensures r.title != "" && r.lien != ""
    ensures f.properties.titre.Some? && f.properties.titre.value != "" ==> r.title == f.properties.titre.value
    ensures (f.properties.titre.None? || f.properties.titre.value == "") && f.properties.title.Some? && f.properties.title.value != "" ==>
      r.title == f.properties.title.value
    ensures (f.properties.titre.None? || f.properties.titre.value == "") && (f.properties.title.None? || f.properties.title.value == "") ==>
      r.title == Untitled
    ensures f.properties.lien.Some? && f.properties.lien.value != "" ==> r.lien == f.properties.lien.value
    ensures (f.properties.lien.None? || f.properties.lien.value == "") && f.properties.url.Some? && f.properties.url.value != "" ==>
      r.lien == f.properties.url.value
    ensures (f.properties.lien.None? || f.properties.lien.value == "") && (f.properties.url.None? || f.properties.url.value == "") ==>
      r.lien == NoLink
    ensures r.cat == catalogue.canonical(Or(Or(f.properties.categorieAccent, f.properties.categorie), f.properties.category))
    ensures r.color == OrElse(catalogue.color(r.cat), catalogue.defaultPinColor)
    ensures r.imp == Importance(f.properties) && r.minZoom == MinZoom(r.imp)
    ensures r.date == OrElse(f.properties.date, "")
    ensures r.parsedDate.Some? ==> r.date != "" && catalogue.parseDate(r.date) == r.parsedDate
    ensures r.date != "" ==> r.parsedDate == catalogue.parseDate(r.date)
    ensures r.lon == f.coordinates.0 && r.lat == f.coordinates.1
    ensures r.localisation == f.properties.localisation
    ensures r.description == f.properties.description && r.imageUrl == f.properties.imageUrl
  {
    var p := f.properties;
    var cat := catalogue.canonical(Or(Or(p.categorieAccent, p.categorie), p.category));
    var imp := Importance(p);
    MarkerArticle(
      idx := idx,
      title := OrElse(Or(p.titre, p.title), Untitled),
      cat := cat,
      date := OrElse(p.date, ""),
      parsedDate := ParsedDate(p.date, catalogue.parseDate),
      imp := imp,
      lien := OrElse(Or(p.lien, p.url), NoLink),
      color := OrElse(catalogue.color(cat), catalogue.defaultPinColor),
      lat := f.coordinates.1,
      lon := f.coordinates.0,
      minZoom := MinZoom(imp),
      localisation := p.localisation,
      description := p.description,
      imageUrl := p.imageUrl)
  }

  /** One marker per feature, numbered by position. */
  function Markers(features: seq<GeoFeature>, catalogue: Catalogue): (r: seq<MarkerArticle>)
    ensures |r| == |features|
    ensures forall i :: 0 <= i < |r| ==> r[i].idx == i && r[i] == ToMarker(features[i], i, catalogue)
  {
    seq(|features|, i requires 0 <= i < |features| => ToMarker(features[i], i, catalogue))
  }

  // ---------------------------------------------------------------------
  // Category keys.

  /** `forEach(x => { if (!acc.includes(x)) acc.push(x) })`, and also the
      insertion order of a `Set` built from `xs` (when `acc` is empty). */
  function PushMissing(acc: seq<string>, xs: seq<string>): (r: seq<string>)
    ensures forall c :: c in r <==> c in acc || c in xs
    ensures |acc| <= |r| && r[..|acc|] == acc
    ensures Distinct(acc) ==> Distinct(r)
  {
    if xs == [] then acc
    else
      var init := xs[..|xs| - 1];
      var last := xs[|xs| - 1];
      assert xs == init + [last];
      var p := PushMissing(acc, init);
      if last in p then p else p + [last]
  }

  /** The distinct values of `xs` in order of first appearance. */
  function FirstSeen(xs: seq<string>): (r: seq<string>)
    ensures forall c :: c in r <==> c in xs
    ensures Distinct(r)
  {
    PushMissing([], xs)
  }

  /** Dropping the last element of a duplicate-free list leaves a
      duplicate-free list without that element. */
  lemma DistinctInit(xs: seq<string>)
    requires xs != [] && Distinct(xs)
    ensures Distinct(xs[..|xs| - 1]) && xs[|xs| - 1] !in xs[..|xs| - 1]
  {
    var init := xs[..|xs| - 1];
    forall i, j | 0 <= i < j < |init| ensures init[i] != init[j] {
      assert init[i] == xs[i] && init[j] == xs[j];
    }
    forall i | 0 <= i < |init| ensures init[i] != xs[|xs| - 1] {
      assert init[i] == xs[i];
    }
  }

  /** Filtering a one-element list. */
  lemma FilterSingle(x: string, p: string -> bool)
    ensures Filter([x], p) == if p(x) then [x] else []
  {
    assert [x][1..] == [];
  }

  /** Pushing a duplicate-free list appends exactly its elements that are
      not yet present, in their order. */
  lemma {:induction false} PushMissingDistinct(acc: seq<string>, xs: seq<string>)
    requires Distinct(xs)
    ensures PushMissing(acc, xs) == acc + Filter(xs, c => c !in acc)
  {
    if xs != [] {
      var init := xs[..|xs| - 1];
      var last := xs[|xs| - 1];
      var notIn := c => c !in acc;
      assert xs == init + [last];
      DistinctInit(xs);
      PushMissingDistinct(acc, init);
      FilterConcat(init, [last], notIn);
      FilterSingle(last, notIn);
    }
  }

  /** The category keys of the filter panel, from the categories of the
      articles in order: the categories of `order` that occur, then the
      other occurring categories by first appearance. */
  function CategoryKeys(cats: seq<string>, order: seq<string>): (r: seq<string>)
    ensures forall c :: c in r <==> c in cats
  {
    var present := FirstSeen(cats);
    PushMissing(Filter(order, c => c in present), present)
  }

  /** The key list is `order` restricted to the present categories, followed
      by the remaining present categories in order of first appearance; it
      has no duplicates when `order` has none. */
  lemma CategoryKeysOrder(cats: seq<string>, order: seq<string>)
    ensures CategoryKeys(cats, order) == Filter(order, c => c in cats) + Filter(FirstSeen(cats), c => c !in order)
    ensures Distinct(order) ==> Distinct(CategoryKeys(cats, order))
  {
    var present := FirstSeen(cats);
    var ordered := Filter(order, c => c in present);
    FilterCongruent(order, c => c in present, c => c in cats);
    PushMissingDistinct(ordered, present);
    FilterCongruent(present, c => c !in ordered, c => c !in order);
    if Distinct(order) {
      FilterKeepsDistinct(order, c => c in present, c => c);
      assert Distinct(ordered) by {
        forall i, j | 0 <= i < j < |ordered| ensures ordered[i] != ordered[j] {
          assert (c => c)(ordered[i]) != (c => c)(ordered[j]);
        }
      }
    }
  }

  /** The category of every article, in order. */
  function Categories(articles: seq<MarkerArticle>): (r: seq<string>)
    ensures |r| == |articles|
    ensures forall i :: 0 <= i < |r| ==> r[i] == articles[i].cat
  {
    seq(|articles|, i requires 0 <= i < |articles| => articles[i].cat)
  }

  lemma CategoriesPresent(articles: seq<MarkerArticle>)
    ensures forall c :: c in Categories(articles) <==> exists i :: 0 <= i < |articles| && articles[i].cat == c
  {
    var cats := Categories(articles);
    forall c | c in cats ensures exists i :: 0 <= i < |articles| && articles[i].cat == c {
      var i :| 0 <= i < |cats| && cats[i] == c;
      assert articles[i].cat == c;
    }
  }

  /** The articles and category keys of the component's state. */
  datatype Loaded = Loaded(articles: seq<MarkerArticle>, categoryKeys: seq<string>)

  /** Loading the GeoJSON data: no data gives no articles and no keys. */
  function Load(data: Option<seq<GeoFeature>>, catalogue: Catalogue): (r: Loaded)
    ensures data.None? ==> r == Loaded([], [])
    ensures data.Some? ==> r.articles == Markers(data.value, catalogue)
    ensures forall c :: c in r.categoryKeys <==> exists i :: 0 <= i < |r.articles| && r.articles[i].cat == c
    ensures Distinct(catalogue.order) ==> Distinct(r.categoryKeys)
  {
    match data
    case None => Loaded([], [])
    case Some(features) =>
      var articles := Markers(features, catalogue);
      CategoryKeysOrder(Categories(articles), catalogue.order);
      CategoriesPresent(articles);
      Loaded(articles, CategoryKeys(Categories(articles), catalogue.order))
  }

  // ---------------------------------------------------------------------
  // Filtering.

  datatype FilterState = FilterState(cat: string, search: string, dateIdx: int)

  /** `START_DATE` moved back by `LastDay - dateIdx` days. */
  function Cutoff(start: int, dateIdx: int): (r: int)
    ensures dateIdx == LastDay ==> r == start
    ensures dateIdx <= LastDay ==> r <= start
    ensures (start - r) % Ingest.MsPerDay == 0
  {
    start - (LastDay - dateIdx) * Ingest.MsPerDay
  }

  /** The date rule of the filter. */
  predicate DateOK(parsed: Option<int>, dateIdx: int, start: int) {
    if parsed.Some? && dateIdx < LastDay then Cutoff(start, dateIdx) <= parsed.value <= start
    else if parsed.Some? && dateIdx == LastDay then parsed.value <= start
    else if parsed.None? && dateIdx < LastDay then false
    else true
  }

  /** The window nests: moving the slider left, away from its right end,
      never hides an article, and the right end shows every article any
      other position shows. */
  lemma DateWindowNests(parsed: Option<int>, i: int, j: int, start: int)
    requires i <= j < LastDay && DateOK(parsed, j, start)
    ensures DateOK(parsed, i, start)
    ensures DateOK(parsed, LastDay, start)
  {
  }

  /** At the right end every undated article and every article dated no
      later than `start` passes; anywhere to the left an article passes
      exactly when it is dated within the last `LastDay - dateIdx` days. */
  lemma DateWindow(parsed: Option<int>, dateIdx: int, start: int)
    ensures dateIdx == LastDay ==> (DateOK(parsed, dateIdx, start) <==> parsed.None? || parsed.value <= start)
    ensures dateIdx < LastDay ==>
      (DateOK(parsed, dateIdx, start) <==>
        parsed.Some? && start - parsed.value <= (LastDay - dateIdx) * Ingest.MsPerDay && parsed.value <= start)
  {
  }

  /** Whether an article passes the filter; `zoom` is `None` without a map. */
  function Keep(a: MarkerArticle, f: FilterState, zoom: Option<int>, start: int): (r: bool)
    ensures r ==> f.cat == AllCategories || a.cat == f.cat
    ensures r && f.search != "" ==> |f.search| <= |a.title|
    ensures r && f.dateIdx < LastDay ==> (a.parsedDate.Some? && a.parsedDate.value <= start
      && start - a.parsedDate.value <= (LastDay - f.dateIdx) * Ingest.MsPerDay)
    ensures r && f.dateIdx == LastDay && a.parsedDate.Some? ==> a.parsedDate.value <= start
    ensures r && zoom.Some? ==> a.minZoom <= zoom.value
    ensures r <==>
      && (f.cat == AllCategories || a.cat == f.cat)
      && (f.search == "" || Contains(ToLower(a.title), ToLower(f.search)))
      && (f.dateIdx < LastDay ==> (a.parsedDate.Some? && a.parsedDate.value <= start
            && start - a.parsedDate.value <= (LastDay - f.dateIdx) * Ingest.MsPerDay))
      && (f.dateIdx == LastDay && a.parsedDate.Some? ==> a.parsedDate.value <= start)
      && (zoom.Some? ==> a.minZoom <= zoom.value)
  {
    ContainsNoLonger(ToLower(a.title), ToLower(f.search));
    && (f.cat == AllCategories || a.cat == f.cat)
    && (f.search == "" || Contains(ToLower(a.title), ToLower(f.search)))
    && DateOK(a.parsedDate, f.dateIdx, start)
    && (zoom.None? || zoom.value >= a.minZoom)
  }

  /** The filter as a predicate over articles. */
  function Passes(f: FilterState, zoom: Option<int>, start: int): MarkerArticle -> bool {
    (a: MarkerArticle) => Keep(a, f, zoom, start)
  }

  // ---------------------------------------------------------------------
  // The sidebar order.

  /** `a.localeCompare(b)`, as code-unit order: negative, zero or positive. */
  function CompareTitles(a: string, b: string): (r: int)
    ensures -1 <= r <= 1
    ensures r == 0 <==> a == b
  {
    if a == [] then (if b == [] then 0 else -1)
    else if b == [] then 1
    else if a[0] < b[0] then -1
    else if a[0] > b[0] then 1
    else
      assert a == [a[0]] + a[1..] && b == [b[0]] + b[1..];
      CompareTitles(a[1..], b[1..])
  }

  lemma {:induction false} CompareTitlesAntisymmetric(a: string, b: string)
    ensures CompareTitles(b, a) == -CompareTitles(a, b)
  {
    if a != [] && b != [] && a[0] == b[0] {
      CompareTitlesAntisymmetric(a[1..], b[1..]);
    }
  }

  lemma {:induction false} CompareTitlesTransitive(a: string, b: string, c: string)
    requires CompareTitles(a, b) <= 0 && CompareTitles(b, c) <= 0
    ensures CompareTitles(a, c) <= 0
  {
    if a != [] && b != [] && c != [] && a[0] == b[0] == c[0] {
      CompareTitlesTransitive(a[1..], b[1..], c[1..]);
    }
  }

  /** The sidebar comparator: negative when `a` goes first. */
  function SidebarCompare(a: MarkerArticle, b: MarkerArticle): (r: real)
    ensures r == 0.0 <==> a.imp == b.imp && a.parsedDate == b.parsedDate && a.title == b.title
    ensures a.imp != b.imp ==> (r < 0.0 <==> a.imp > b.imp)
    ensures a.imp == b.imp && a.parsedDate.Some? && b.parsedDate.None? ==> r < 0.0
    ensures a.imp == b.imp && a.parsedDate.Some? && b.parsedDate.Some? && a.parsedDate.value != b.parsedDate.value ==>
      (r < 0.0 <==> a.parsedDate.value > b.parsedDate.value)
  {
    if b.imp != a.imp then b.imp - a.imp
    else if a.parsedDate.Some? && b.parsedDate.Some? then
      if b.parsedDate.value != a.parsedDate.value then (b.parsedDate.value - a.parsedDate.value) as real
      else CompareTitles(a.title, b.title) as real
    else if b.parsedDate.Some? then 1.0
    else if a.parsedDate.Some? then -1.0
    else CompareTitles(a.title, b.title) as real
  }

  /** `a` may precede `b` in the sidebar. */
  predicate SidebarLe(a: MarkerArticle, b: MarkerArticle) {
    SidebarCompare(a, b) <= 0.0
  }

  /** The intended order, key by key: higher importance first; at equal
      importance dated before undated and newer before older; then titles. */
  predicate RanksBefore(a: MarkerArticle, b: MarkerArticle) {
    || a.imp > b.imp
    || (a.imp == b.imp && a.parsedDate.Some? && b.parsedDate.None?)
    || (a.imp == b.imp && a.parsedDate.Some? && b.parsedDate.Some? && a.parsedDate.value > b.parsedDate.value)
    || (a.imp == b.imp && a.parsedDate == b.parsedDate && CompareTitles(a.title, b.title) <= 0)
  }

  /** The comparator orders the sidebar exactly by the intended keys. */
  lemma SidebarLeRanks(a: MarkerArticle, b: MarkerArticle)
    ensures SidebarLe(a, b) <==> RanksBefore(a, b)
  {
  }

  /** The comparator is consistent, so sorting by it is well defined. */
  lemma SidebarTotalPreorder()
    ensures TotalPreorder(SidebarLe)
  {
    forall a, b ensures SidebarLe(a, b) || SidebarLe(b, a) {
      CompareTitlesAntisymmetric(a.title, b.title);
    }
    forall a, b, c | SidebarLe(a, b) && SidebarLe(b, c) ensures SidebarLe(a, c) {
      SidebarLeRanks(a, b);
      SidebarLeRanks(b, c);
      SidebarLeRanks(a, c);
      if a.imp == b.imp == c.imp && a.parsedDate == b.parsedDate == c.parsedDate {
        CompareTitlesTransitive(a.title, b.title, c.title);
      }
    }
  }

  // ---------------------------------------------------------------------
  // The two lists.

  datatype Views = Views(forMap: seq<MarkerArticle>, forSidebar: seq<MarkerArticle>)

  /** `updateActiveArticlesForMapAndSidebar`: the articles passing the
      filter, in their original order for the map and sorted for the
      sidebar; both lists are empty without a map or without articles. */
  function UpdateViews(all: seq<MarkerArticle>, f: FilterState, zoom: Option<int>, start: int): (r: Views)
    ensures zoom.None? || all == [] ==> r == Views([], [])
    ensures zoom.Some? && all != [] ==> forall a :: a in r.forMap <==> a in all && Keep(a, f, zoom, start)
    ensures zoom.Some? && all != [] ==> r.forMap == Filter(all, Passes(f, zoom, start))
    ensures IsSubseq(r.forMap, all)
    ensures multiset(r.forSidebar) == multiset(r.forMap)
    ensures SortedBy(r.forSidebar, SidebarLe)
  {
    if zoom.None? || all == [] then
      Views([], [])
    else
      var passing := Filter(all, Passes(f, zoom, start));
      FilterIsSubseq(all, Passes(f, zoom, start));
      SidebarTotalPreorder();
      SortSorted(passing, SidebarLe);
      Views(passing, Sort(passing, SidebarLe))
  }

  /** With the filters at rest (every category, no search, the slider at
      its right end) and the map zoomed in to 5 or more, every marker dated
      no later than `start` or undated is shown, in order. */
  lemma OpenFiltersShowAll(all: seq<MarkerArticle>, zoom: int, start: int)
    requires zoom >= 5
    requires forall a :: a in all ==> a.minZoom == MinZoom(a.imp)
    requires forall a :: a in all ==> a.parsedDate.None? || a.parsedDate.value <= start
    ensures UpdateViews(all, FilterState(AllCategories, "", LastDay), Some(zoom), start).forMap == all
  {
    if all != [] {
      FilterAll(all, a => Keep(a, FilterState(AllCategories, "", LastDay), Some(zoom), start));
    }
  }
}

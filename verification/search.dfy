/** `search_pcgarage`, `search_emag` and `search_altex` of `scrapers/`: answer
    from the per-query cache when it has a non-empty entry, otherwise scan the
    result page for the best candidate and write the winner back. The page is
    the sequence of product cards as read from the browser; the PC Garage
    detail-page specs read for the winner are a parameter. */
module Search {
  import opened Wrappers
  import Text
  import Decimal
  import Similarity
  import Cache
  import Selection

  datatype Site = PcGarage | Emag | Altex

  /** The site name the cache is keyed by. */
  function Key(site: Site): string {
    match site
    case PcGarage => "pcgarage"
    case Emag => "emag"
    case Altex => "altex"
  }

  const Nbsp: char := '\U{A0}'

  /** The price text with the site's currency words and no-break spaces
      removed and the decimal comma turned into a point. */
  function CleanPrice(site: Site, text: string): string {
    var noCurrency :=
      match site
      case PcGarage => Text.Replace(text, "RON", "")
      case Emag => Text.Replace(Text.Replace(text, "Lei", ""), "lei", "")
      case Altex => Text.Replace(text, "lei", "");
    Text.Replace(Text.Replace(noCurrency, [Nbsp], ""), ",", ".")
  }

  /** `float(price_text)` of the card's price element; `None` when the element
      is missing or the text does not convert. */
  function ParsePrice(site: Site, text: Option<string>): Option<real> {
    match text
    case None => None
    case Some(t) => Decimal.ParseFloat(CleanPrice(site, t))
  }

  /** The currency word each site prints after the amount. */
  function Currency(site: Site): string {
    match site
    case PcGarage => "RON"
    case Emag => "Lei"
    case Altex => "lei"
  }

  /** Cleaning keeps the count of separators: every `,` becomes a `.`. */
  lemma CleanPriceDots(site: Site, text: string)
    ensures Text.Count(CleanPrice(site, text), '.') == Text.Count(text, '.') + Text.Count(text, ',')
  {
    var noCurrency :=
      match site
      case PcGarage => Text.Replace(text, "RON", "")
      case Emag => Text.Replace(Text.Replace(text, "Lei", ""), "lei", "")
      case Altex => Text.Replace(text, "lei", "");
    match site {
      case PcGarage =>
        Text.CountReplace(text, "RON", "", '.');
        Text.CountReplace(text, "RON", "", ',');
      case Emag =>
        Text.CountReplace(text, "Lei", "", '.');
        Text.CountReplace(text, "Lei", "", ',');
        Text.CountReplace(Text.Replace(text, "Lei", ""), "lei", "", '.');
        Text.CountReplace(Text.Replace(text, "Lei", ""), "lei", "", ',');
      case Altex =>
        Text.CountReplace(text, "lei", "", '.');
        Text.CountReplace(text, "lei", "", ',');
    }
    var noSpace := Text.Replace(noCurrency, [Nbsp], "");
    Text.CountReplace(noCurrency, [Nbsp], "", '.');
    Text.CountReplace(noCurrency, [Nbsp], "", ',');
    Text.ReplaceOneChar(noSpace, ',', '.');
    Text.CountMapChar(noSpace, ',', '.');
  }

  /** A price with a thousands separator and decimals (two separators in
      all) does not convert, so the candidate has no price. */
  lemma TwoSeparatorsNoPrice(site: Site, text: string)
    requires Text.Count(text, '.') + Text.Count(text, ',') >= 2
    ensures ParsePrice(site, Some(text)) == None
  {
    CleanPriceDots(site, text);
    Decimal.TwoDotsRejected(CleanPrice(site, text));
  }

  /** A whole amount printed as the site prints it (digits, a no-break space,
      the currency word) reads back as that amount. */
  lemma WholePriceRoundTrip(site: Site, n: nat)
    ensures ParsePrice(site, Some(Text.NatToString(n) + [Nbsp] + Currency(site))) == Some(n as real)
  {
    var d := Text.NatToString(n);
    var cur := Currency(site);
    var text := d + [Nbsp] + cur;
    assert text == (d + [Nbsp]) + cur;
    Text.ReplaceSkipsPrefix(d + [Nbsp], cur, cur, "");
    Text.ReplaceWhole(cur);
    assert d + [Nbsp] + "" == d + [Nbsp];
    var noCurrency := d + [Nbsp];
    if site == Emag {
      assert Text.Replace(text, "Lei", "") == noCurrency;
      Text.ReplaceAbsent(noCurrency, "lei", "");
    }
    assert noCurrency == d + [Nbsp];
    Text.ReplaceSkipsPrefix(d, [Nbsp], [Nbsp], "");
    Text.ReplaceWhole([Nbsp]);
    assert d + "" == d;
    Text.ReplaceAbsent(d, ",", ".");
    assert CleanPrice(site, text) == d;
    Decimal.ParseNatString(n);
  }

  /** `_precise_match_score` on PC Garage, `_match_score` elsewhere. */
  function ScoreOf(site: Site, m: Similarity.Metrics, title: string, query: string): real {
    if site == PcGarage then Similarity.PreciseScore(m, title, query)
    else Similarity.MatchScore(m, title, query)
  }

  /** Skip below 60, stop once the best reaches 95; eMAG also stops at a
      considered card past index 60 once it has a best. */
  function PolicyOf(site: Site): Selection.Policy {
    Selection.Policy(60.0, Some(95.0), if site == Emag then Some(60) else None)
  }

  /** One product card as read from the page: the title text (`None` when
      the title element is missing, which skips the card), the price text and
      the `href` (each `None` when missing). */
  datatype Card = Card(title: Option<string>, priceText: Option<string>, link: Option<string>)

  function Assess(site: Site, m: Similarity.Metrics, query: string, c: Card): Option<Selection.Assessed> {
    match c.title
    case None => None
    case Some(raw) =>
      var t := Text.Strip(raw);
      Some(Selection.Assessed(t, ScoreOf(site, m, t, query), ParsePrice(site, c.priceText), c.link))
  }

  function AssessAll(site: Site, m: Similarity.Metrics, query: string, cards: seq<Card>): (xs: seq<Option<Selection.Assessed>>)
    ensures |xs| == |cards|
    ensures forall i :: 0 <= i < |cards| ==> xs[i] == Assess(site, m, query, cards[i])
  {
    seq(|cards|, (i: int) requires 0 <= i < |cards| => Assess(site, m, query, cards[i]))
  }

  /** Which of the three cache functions the module could import; a failed
      import leaves them `None`. */
  datatype Bindings = Bindings(getForQuery: bool, upsertForQuery: bool, upsert: bool)

  /** The dict a search returns: `None` for a key that is missing. */
  datatype Found = Found(title: Option<string>, price: Option<real>, url: Option<string>,
                         specs: Option<Cache.Specs>)

  /** A search either raises out of the cache lookup or returns a result;
      `store` is the cache file afterwards and `fetched` says whether the
      site was visited. */
  datatype Outcome =
    | Raised(error: Cache.CacheError)
    | Returned(result: Option<Found>, store: Cache.Raw, fetched: bool)

  /** The cache lookup, when there is one to make. */
  function Cached(b: Bindings, raw: Cache.Raw, site: Site, query: string): Result<Option<Cache.Record>, Cache.CacheError> {
    if b.getForQuery then Cache.GetForQuery(raw, Key(site), query) else Success(None)
  }

  /** The lookup produced a non-empty entry. */
  predicate CacheHit(b: Bindings, raw: Cache.Raw, site: Site, query: string) {
    var c := Cached(b, raw, site, query);
    c.Success? && c.value.Some? && Cache.RecordTruthy(c.value.value)
  }

  /** The winning card as returned; PC Garage adds non-empty specs. */
  function Winner(site: Site, a: Selection.Assessed, specs: Cache.Specs): Found {
    Found(Some(a.title), a.price, a.link, if site == PcGarage && specs != "" then Some(specs) else None)
  }

  function EntryOf(f: Found): Cache.Record {
    Cache.Record(f.title, f.price, f.url, f.specs, None)
  }

  /** A search for `query` on `site`, against cache file `raw`, with the
      page's cards, the winner's detail-page specs and the clock reading
      `now` used by the write-back. */
  method SearchSite(site: Site, m: Similarity.Metrics, query: string, cards: seq<Card>, specs: Cache.Specs,
                    b: Bindings, raw: Cache.Raw, now: real) returns (o: Outcome)
    ensures o.Raised? <==> Cached(b, raw, site, query).Failure?
    ensures o.Raised? ==> o.error == Cached(b, raw, site, query).error
    ensures CacheHit(b, raw, site, query) ==>
              var r := Cached(b, raw, site, query).value.value;
              o == Returned(Some(Found(r.title, r.price, r.url, r.specs)), raw, false)
    ensures o.Returned? ==> (o.fetched <==> !CacheHit(b, raw, site, query))
    ensures o.Returned? && o.fetched ==>
              var xs, p := AssessAll(site, m, query, cards), PolicyOf(site);
              var n := Selection.Scanned(xs, p);
              && (o.result.None? <==> forall j :: 0 <= j < n ==> !Selection.Eligible(xs, p, j))
              && (o.result.Some? ==> exists k :: Selection.IsFirstMax(xs, p, n, k)
                                                 && o.result.value == Winner(site, xs[k].value, specs))
    ensures o.Returned? && o.fetched && o.result.None? ==> o.store == raw
    ensures o.Returned? && o.fetched && o.result.Some? && b.upsertForQuery ==>
              o.store == Cache.UpsertForQuery(raw, Key(site), query, EntryOf(o.result.value), now).store
    ensures o.Returned? && o.fetched && o.result.Some? && !b.upsertForQuery && b.upsert ==>
              o.store == Cache.Upsert(raw, Key(site), EntryOf(o.result.value), now)
    ensures o.Returned? && o.fetched && o.result.Some? && !b.upsertForQuery && !b.upsert ==>
              o.store == raw
  {
    var cached := Cached(b, raw, site, query);
    if cached.Failure? {
      return Raised(cached.error);
    }
    if cached.value.Some? && Cache.RecordTruthy(cached.value.value) {
      var r := cached.value.value;
      return Returned(Some(Found(r.title, r.price, r.url, r.specs)), raw, false);
    }
    var xs := AssessAll(site, m, query, cards);
    var best, scanned := Selection.Choose(xs, PolicyOf(site));
    if best.None? {
      return Returned(None, raw, true);
    }
    var found := Winner(site, xs[best.value].value, specs);
    var entry := EntryOf(found);
    var store := raw;
    if b.upsertForQuery {
      store := Cache.UpsertForQuery(raw, Key(site), query, entry, now).store;
    } else if b.upsert {
      store := Cache.Upsert(raw, Key(site), entry, now);
    }
    return Returned(Some(found), store, true);
  }

  /** Once a winner with a non-blank link has been written through
      `upsert_for_query` into a usable index, the next search for a query
      with the same normal form is a cache hit on that link. */
  lemma WrittenWinnerIsNextHit(b: Bindings, raw: Cache.Raw, site: Site, query: string, other: string,
                               f: Found, now: real)
    requires b.getForQuery
    requires Cache.IndexUsable(raw, Key(site))
    requires Text.Strip(f.url.GetOr("")) != ""
    requires Cache.NormQuery(other) == Cache.NormQuery(query)
    ensures var store := Cache.UpsertForQuery(raw, Key(site), query, EntryOf(f), now).store;
            && CacheHit(b, store, site, other)
            && Cache.UrlKey(Cached(b, store, site, other).value.value) == Text.Strip(f.url.GetOr(""))
  {
    var e := EntryOf(f);
    assert Cache.UrlKey(e) == Text.Strip(f.url.GetOr(""));
    Cache.GetAfterUpsertForQuery(raw, Key(site), query, other, e, now);
    var store := Cache.UpsertForQuery(raw, Key(site), query, e, now).store;
    var r := Cache.GetForQuery(store, Key(site), other).value.value;
    Cache.StripEmpty();
    assert r.url.Some?;
  }
}

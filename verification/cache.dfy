/** The persistent result cache of `cache.py`, as a value. The cache file is
    the top-level JSON object `Raw` (`{}` when the file is missing, unreadable
    or not an object, which is what `_load_raw` returns then); every operation
    reads that value and returns the value written back. The clock reading
    `_now_ts()` is the parameter `now`. */
module Cache {
  import opened Wrappers
  import Text

  /** Structured details attached to an entry (the `specs` dict of PC Garage
      results), kept opaque; the empty string stands for an empty dict. */
  type Specs = string

  /** One cached entry. A key that is missing reads as `None`. */
  datatype Record = Record(title: Option<string>, price: Option<real>, url: Option<string>,
                           specs: Option<Specs>, savedAt: Option<real>)

  /** A dict is truthy when it has at least one key. */
  predicate RecordTruthy(r: Record) {
    r.title.Some? || r.price.Some? || r.url.Some? || r.specs.Some? || r.savedAt.Some?
  }

  /** A JSON value as far as the cache looks into it: a list of entries, an
      object, a string, or another scalar (number, boolean, null) of the
      given truthiness. */
  datatype Node =
    | Array(records: seq<Record>)
    | Object(members: map<string, Node>)
    | Str(text: string)
    | Scalar(truthy: bool)

  predicate NodeTruthy(n: Node) {
    match n
    case Array(rs) => |rs| > 0
    case Object(m) => |m| > 0
    case Str(t) => |t| > 0
    case Scalar(b) => b
  }

  /** The top-level object of the cache file. */
  type Raw = map<string, Node>

  /** Site name to its cached entries, as `load_cache` returns them. */
  type Items = map<string, seq<Record>>

  /** What escapes from `get_for_query` / `upsert_for_query` when the file
      holds a wrongly typed index: a truthy non-dict where a dict is used
      (`AttributeError` / `TypeError`), or a non-string URL (`.strip`). */
  datatype CacheError = NotAMapping | NotAString

  function Lookup(m: map<string, Node>, key: string): Option<Node> {
    if key in m then Some(m[key]) else None
  }

  function OrEmpty(s: Option<string>): string {
    s.GetOr("")
  }

  /** `v if isinstance(v, list) else []`. */
  function AsList(n: Node): seq<Record> {
    if n.Array? then n.records else []
  }

  /** The raw value holds the current schema: `items` is an object. */
  predicate HasItemsObject(raw: Raw) {
    "items" in raw && raw["items"].Object?
  }

  /** `load_cache`: the `items` object of the current schema, or else the
      top level read as the legacy `{site: [...]}` shape; a value that is not
      a list becomes `[]`. */
  function LoadCache(raw: Raw): Items {
    var source := if HasItemsObject(raw) then raw["items"].members else raw;
    map s | s in source :: AsList(source[s])
  }

  /** `cache.get(site, [])` on the loaded items. */
  function SiteItems(raw: Raw, site: string): seq<Record> {
    var items := LoadCache(raw);
    if site in items then items[site] else []
  }

  function ItemsNode(items: Items): Node {
    Object(map s | s in items :: Array(items[s]))
  }

  /** `save_cache`: the file is re-read and only its `items` key replaced. */
  function SaveCache(raw: Raw, items: Items): (r: Raw)
    ensures r.Keys == raw.Keys + {"items"}
    ensures forall k :: k in raw && k != "items" ==> r[k] == raw[k]
    ensures LoadCache(r) == items
  {
    var r := raw["items" := ItemsNode(items)];
    assert HasItemsObject(r);
    r
  }

  // ------------------------------------------------------------- upsert

  /** `(it.get("url") or "").strip()`. */
  function UrlKey(r: Record): string {
    Text.Strip(OrEmpty(r.url))
  }

  /** `(it.get("title") or "").strip().lower()`. */
  function TitleKey(r: Record): string {
    Text.Lower(Text.Strip(OrEmpty(r.title)))
  }

  /** The identity test of `upsert`: same stripped URL or same stripped,
      lowercased title. */
  predicate SameEntry(it: Record, e: Record) {
    UrlKey(it) == UrlKey(e) || TitleKey(it) == TitleKey(e)
  }

  predicate IsFirstMatch(items: seq<Record>, e: Record, k: nat) {
    k < |items| && SameEntry(items[k], e) && forall j :: 0 <= j < k ==> !SameEntry(items[j], e)
  }

  /** The index the loop of `upsert` stops at. */
  function FirstMatch(items: seq<Record>, e: Record): (r: Option<nat>)
    ensures r.Some? ==> IsFirstMatch(items, e, r.value)
    ensures r.None? ==> forall j :: 0 <= j < |items| ==> !SameEntry(items[j], e)
  {
    FirstWhere(items, (it: Record) => SameEntry(it, e), 0)
  }

  /** The first position from `i` on whose element satisfies `p`, no
      earlier one doing so. */
  function FirstWhere<T>(xs: seq<T>, p: T -> bool, i: nat): (r: Option<nat>)
    requires i <= |xs|
    requires forall j :: 0 <= j < i ==> !p(xs[j])
    ensures r.Some? ==> r.value < |xs| && p(xs[r.value]) && forall j :: 0 <= j < r.value ==> !p(xs[j])
    ensures r.None? ==> forall j :: 0 <= j < |xs| ==> !p(xs[j])
    decreases |xs| - i
  {
    if i == |xs| then None
    else if p(xs[i]) then Some(i)
    else FirstWhere(xs, p, i + 1)
  }

  /** `it.update({k: v for k, v in entry.items() if v is not None})` followed
      by `it["saved_at"] = now`. */
  function Merge(it: Record, e: Record, now: real): Record {
    Record(if e.title.Some? then e.title else it.title,
           if e.price.Some? then e.price else it.price,
           if e.url.Some? then e.url else it.url,
           if e.specs.Some? then e.specs else it.specs,
           Some(now))
  }

  /** `r` is `base` with every field `e` gives (not `None`) taken from `e`,
      every other field kept, and `saved_at` set to `now`. */
  predicate Overlaid(base: Record, e: Record, now: real, r: Record) {
    && r.title == (if e.title.Some? then e.title else base.title)
    && r.price == (if e.price.Some? then e.price else base.price)
    && r.url == (if e.url.Some? then e.url else base.url)
    && r.specs == (if e.specs.Some? then e.specs else base.specs)
    && r.savedAt == Some(now)
  }

  const Empty := Record(None, None, None, None, None)

  /** The list `upsert` leaves for the site: the first item with the same
      identity is overlaid in place and nothing else moves; without one, the
      entry (its `None` fields dropped) is appended. */
  function UpsertItems(items: seq<Record>, e: Record, now: real): (r: seq<Record>)
    ensures FirstMatch(items, e).Some? ==>
              var k := FirstMatch(items, e).value;
              && |r| == |items|
              && Overlaid(items[k], e, now, r[k])
              && forall j :: 0 <= j < |items| && j != k ==> r[j] == items[j]
    ensures FirstMatch(items, e).None? ==>
              && |r| == |items| + 1
              && r[..|items|] == items
              && Overlaid(Empty, e, now, r[|items|])
  {
    match FirstMatch(items, e)
    case Some(k) => items[k := Merge(items[k], e, now)]
    case None =>
      var r := items + [Merge(Empty, e, now)];
      assert r[..|items|] == items;
      r
  }

  /** `upsert(site, entry)`. */
  function Upsert(raw: Raw, site: string, e: Record, now: real): (r: Raw)
    ensures LoadCache(r) == LoadCache(raw)[site := UpsertItems(SiteItems(raw, site), e, now)]
    ensures forall k :: k in raw && k != "items" ==> k in r && r[k] == raw[k]
    ensures HasItemsObject(r)
  {
    var cache := LoadCache(raw);
    SaveCache(raw, cache[site := UpsertItems(SiteItems(raw, site), e, now)])
  }

  lemma StripEmpty()
    ensures Text.Strip("") == ""
  {
  }

  /** After an upsert the entry is found again by the same identity test, and
      by its URL when it has one. */
  lemma UpsertedIsFound(items: seq<Record>, e: Record, now: real)
    ensures var r := UpsertItems(items, e, now);
            exists k :: 0 <= k < |r| && SameEntry(r[k], e)
    ensures var r := UpsertItems(items, e, now);
            UrlKey(e) != "" ==> exists k :: 0 <= k < |r| && UrlKey(r[k]) == UrlKey(e)
  {
    var r := UpsertItems(items, e, now);
    StripEmpty();
    match FirstMatch(items, e)
    case Some(k) =>
      assert r[k] == Merge(items[k], e, now);
      assert SameEntry(r[k], e);
    case None =>
      assert r[|items|] == Merge(Empty, e, now);
      assert UrlKey(r[|items|]) == UrlKey(e) || (e.url.None? && UrlKey(e) == "");
      assert SameEntry(r[|items|], e);
  }

  /** Upserting the same entry twice adds at most one item to the site's list. */
  lemma UpsertTwiceGrowsByAtMostOne(raw: Raw, site: string, e: Record, now1: real, now2: real)
    ensures |SiteItems(Upsert(Upsert(raw, site, e, now1), site, e, now2), site)|
            <= |SiteItems(raw, site)| + 1
  {
    var once := Upsert(raw, site, e, now1);
    var items1 := UpsertItems(SiteItems(raw, site), e, now1);
    assert SiteItems(once, site) == items1;
    UpsertedIsFound(SiteItems(raw, site), e, now1);
    var twice := Upsert(once, site, e, now2);
    assert SiteItems(twice, site) == UpsertItems(items1, e, now2);
  }

  // ---------------------------------------------------------- find_best

  function TitleScore(scorer: (string, string) -> real, it: Record, q: string): real {
    scorer(OrEmpty(it.title), q)
  }

  /** `k` holds the first strictly greatest positive score. */
  predicate IsFirstBest(items: seq<Record>, scorer: (string, string) -> real, q: string, k: int) {
    && 0 <= k < |items|
    && TitleScore(scorer, items[k], q) > 0.0
    && (forall j :: 0 <= j < |items| ==> TitleScore(scorer, items[j], q) <= TitleScore(scorer, items[k], q))
    && (forall j :: 0 <= j < k ==> TitleScore(scorer, items[j], q) < TitleScore(scorer, items[k], q))
  }

  /** There is at most one first best position. */
  lemma FirstBestUnique(items: seq<Record>, scorer: (string, string) -> real, q: string, a: int, b: int)
    requires IsFirstBest(items, scorer, q, a) && IsFirstBest(items, scorer, q, b)
    ensures a == b
  {
  }

  /** `find_best(site, query, scorer=scorer)`: the first entry with the
      strictly greatest positive score, and only when that score is at least
      90 (and the entry is a non-empty dict). */
  method FindBest(raw: Raw, site: string, query: string, scorer: (string, string) -> real)
    returns (best: Option<Record>)
    ensures var items, q := SiteItems(raw, site), Text.Strip(query);
            best.Some? <==> exists k :: IsFirstBest(items, scorer, q, k)
                                        && TitleScore(scorer, items[k], q) >= 90.0
                                        && RecordTruthy(items[k])
    ensures var items, q := SiteItems(raw, site), Text.Strip(query);
            best.Some? ==> exists k :: IsFirstBest(items, scorer, q, k) && best.value == items[k]
  {
    var items := SiteItems(raw, site);
    var q := Text.Strip(query);
    var found: Option<Record> := None;
    var bestScore := 0.0;
    ghost var at := 0;
    var i := 0;
    while i < |items|
      invariant 0 <= i <= |items|
      invariant found.None? ==> bestScore == 0.0
      invariant found.None? ==> forall j :: 0 <= j < i ==> TitleScore(scorer, items[j], q) <= 0.0
      invariant found.Some? ==> 0 <= at < i && found.value == items[at]
      invariant found.Some? ==> bestScore == TitleScore(scorer, items[at], q) > 0.0
      invariant found.Some? ==> forall j :: 0 <= j < i ==> TitleScore(scorer, items[j], q) <= bestScore
      invariant found.Some? ==> forall j :: 0 <= j < at ==> TitleScore(scorer, items[j], q) < bestScore
    {
      var score := scorer(OrEmpty(items[i].title), q);
      if score > bestScore {
        found := Some(items[i]);
        bestScore := score;
        at := i;
      }
      i := i + 1;
    }
    if found.Some? {
      assert IsFirstBest(items, scorer, q, at);
      forall k | IsFirstBest(items, scorer, q, k)
        ensures k == at
      {
        FirstBestUnique(items, scorer, q, k, at);
      }
    }
    if found.Some? && RecordTruthy(found.value) && bestScore >= 90.0 {
      best := found;
    } else {
      best := None;
    }
  }

  // ------------------------------------------------------- query index

  /** `_norm_query`: lowercase, whitespace runs collapsed to one space, no
      leading or trailing whitespace. */
  function NormQuery(s: string): string {
    Text.Join(" ", Text.Runs(Text.Lower(s), Text.NotSpace))
  }

  lemma NormQueryIdempotent(s: string)
    ensures NormQuery(NormQuery(s)) == NormQuery(s)
  {
    var ws := Text.Runs(Text.Lower(s), Text.NotSpace);
    Text.RunsLowered(Text.Lower(s), Text.NotSpace);
    Text.JoinLowered(" ", ws);
    Text.LowerOfLowered(Text.Join(" ", ws));
    Text.RunsOfJoin(ws, ' ', Text.NotSpace);
  }

  /** A key is lowercase, with single spaces between words and none at
      either end. */
  lemma NormQueryShape(s: string)
    ensures Text.IsLowered(NormQuery(s)) && Text.SingleSpaced(NormQuery(s))
  {
    var ws := Text.Runs(Text.Lower(s), Text.NotSpace);
    Text.RunsLowered(Text.Lower(s), Text.NotSpace);
    Text.JoinLowered(" ", ws);
    Text.JoinSingleSeparated(ws, Text.NotSpace, ' ');
  }

  /** The keys are exactly the texts `_norm_query` leaves alone. */
  lemma NormQueryFixpoint(s: string)
    ensures NormQuery(s) == s <==> Text.IsLowered(s) && Text.SingleSpaced(s)
  {
    NormQueryShape(s);
    if Text.IsLowered(s) && Text.SingleSpaced(s) {
      Text.LowerOfLowered(s);
      Text.RunsOfSingleSeparated(s, Text.NotSpace, ' ');
    }
  }

  /** Two queries share an index slot exactly when they have the same words
      once lowercased: case and the amount of whitespace do not matter, and
      nothing else is merged. */
  lemma SameKeyIffSameWords(a: string, b: string)
    ensures NormQuery(a) == NormQuery(b)
        <==> Text.Runs(Text.Lower(a), Text.NotSpace) == Text.Runs(Text.Lower(b), Text.NotSpace)
  {
    Text.RunsOfJoin(Text.Runs(Text.Lower(a), Text.NotSpace), ' ', Text.NotSpace);
    Text.RunsOfJoin(Text.Runs(Text.Lower(b), Text.NotSpace), ' ', Text.NotSpace);
  }

  /** Case does not matter: `" SAMSUNG s23"` and `" samsung s23"` share a key. */
  lemma NormQueryIgnoresCase(s: string)
    ensures NormQuery(Text.Lower(s)) == NormQuery(s)
  {
    Text.LowerIdempotent(s);
  }

  /** How much whitespace separates two parts does not matter:
      `"samsung  s23"` and `"samsung s23"` share a key. */
  lemma NormQueryIgnoresGapWidth(a: string, g: string, b: string)
    requires |g| > 0 && forall i :: 0 <= i < |g| ==> Text.IsSpace(g[i])
    ensures NormQuery(a + g + b) == NormQuery(a + " " + b)
  {
    Text.LowerAppend(a + g, b);
    Text.LowerAppend(a, g);
    Text.LowerAppend(a + " ", b);
    Text.LowerAppend(a, " ");
    Text.LowerOfSpaces(g);
    Text.LowerOfSpaces(" ");
    Text.RunsAcrossGap(Text.Lower(a), g, Text.Lower(b), Text.NotSpace);
    Text.RunsAcrossGap(Text.Lower(a), " ", Text.Lower(b), Text.NotSpace);
  }

  /** Whitespace around the query does not matter: `" samsung s23 "` and
      `"samsung s23"` share a key. */
  lemma NormQueryIgnoresPadding(g: string, s: string, h: string)
    requires forall i :: 0 <= i < |g| ==> Text.IsSpace(g[i])
    requires forall i :: 0 <= i < |h| ==> Text.IsSpace(h[i])
    ensures NormQuery(g + s + h) == NormQuery(s)
  {
    var ls := Text.Lower(s);
    assert Text.Lower(g + s + h) == g + (ls + h) by {
      Text.LowerAppend(g + s, h);
      Text.LowerAppend(g, s);
      Text.LowerOfSpaces(g);
      Text.LowerOfSpaces(h);
    }
    Text.RunsOfBlanks(g, ls + h, Text.NotSpace);
    Text.RunsBeforeBlanks(ls, h, Text.NotSpace);
  }

  /** `x or {}` followed by use as a dict: absent and falsy values read as an
      empty dict; a truthy value that is not an object raises. */
  function AsMapping(n: Option<Node>): (r: Result<map<string, Node>, CacheError>)
    ensures r.Failure? ==> r.error == NotAMapping
  {
    match n
    case None => Success(map[])
    case Some(Object(m)) => Success(m)
    case Some(v) => if NodeTruthy(v) then Failure(NotAMapping) else Success(map[])
  }

  /** `raw.get("query_index") or {}` can be used as a dict. */
  predicate QidxUsable(raw: Raw) {
    AsMapping(Lookup(raw, "query_index")).Success?
  }

  /** The index of `site` can be read and written without raising. */
  predicate IndexUsable(raw: Raw, site: string) {
    && QidxUsable(raw)
    && AsMapping(Lookup(AsMapping(Lookup(raw, "query_index")).value, site)).Success?
  }

  /** `upsert_for_query` gets through its index half: `qidx.get(site)` needs
      a usable `query_index`, and the site's map is only written to when the
      entry's stripped URL `url` is not empty. */
  predicate IndexWritable(raw: Raw, site: string, url: string) {
    QidxUsable(raw) && (url == "" || IndexUsable(raw, site))
  }

  /** `site_map[key] = url; qidx[site] = site_map; raw["query_index"] = qidx`. */
  function SetIndexEntry(raw: Raw, qidx: map<string, Node>, site: string, siteMap: map<string, Node>,
                         key: string, url: string): (r: Raw)
    ensures forall k :: k in raw && k != "query_index" ==> k in r && r[k] == raw[k]
  {
    raw["query_index" := Object(qidx[site := Object(siteMap[key := Str(url)])])]
  }

  /** The index half of `upsert_for_query`, on the file as the upsert left
      it: the normalised query `key` is mapped to the entry's stripped URL
      `url` when that is not empty; otherwise nothing is written. */
  function IndexQuery(raw: Raw, site: string, key: string, url: string): (r: Result<Raw, CacheError>)
    ensures r.Success? <==> IndexWritable(raw, site, url)
    ensures r.Failure? ==> r.error == NotAMapping
    ensures r.Success? && url == "" ==> r.value == raw
    ensures r.Success? ==> forall k :: k in raw && k != "query_index" ==> k in r.value && r.value[k] == raw[k]
  {
    var qidx := AsMapping(Lookup(raw, "query_index"));
    if qidx.Failure? then Failure(qidx.error)
    else if url == "" then Success(raw)
    else
      var siteMap := AsMapping(Lookup(qidx.value, site));
      if siteMap.Failure? then Failure(siteMap.error)
      else Success(SetIndexEntry(raw, qidx.value, site, siteMap.value, key, url))
  }

  /** The file after `upsert_for_query`, and the exception it raised if any.
      The upsert and the index write are two separate writes: when the
      second raises, the first has already happened. */
  datatype Written = Written(store: Raw, raised: Option<CacheError>)

  /** `upsert_for_query(site, query, entry)`. */
  function UpsertForQuery(raw: Raw, site: string, query: string, e: Record, now: real): (w: Written)
    ensures LoadCache(w.store) == LoadCache(Upsert(raw, site, e, now))
    ensures w.raised.Some? <==> !IndexWritable(raw, site, UrlKey(e))
    ensures w.raised.Some? ==> w.raised == Some(NotAMapping) && w.store == Upsert(raw, site, e, now)
    ensures UrlKey(e) == "" && w.raised.None? ==> w.store == Upsert(raw, site, e, now)
  {
    var afterUpsert := Upsert(raw, site, e, now);
    assert Lookup(afterUpsert, "query_index") == Lookup(raw, "query_index");
    match IndexQuery(afterUpsert, site, NormQuery(query), UrlKey(e))
    case Success(r) =>
      assert r["items"] == afterUpsert["items"];
      Written(r, None)
    case Failure(err) => Written(afterUpsert, Some(err))
  }

  /** The first entry whose stripped URL is `url`. */
  function FirstWithUrl(items: seq<Record>, url: string): (r: Option<Record>)
    ensures r.Some? ==> r.value in items && UrlKey(r.value) == url
    ensures r.Some? ==> exists k :: 0 <= k < |items| && r.value == items[k] && UrlKey(items[k]) == url
                                    && forall j :: 0 <= j < k ==> UrlKey(items[j]) != url
    ensures r.None? ==> forall k :: 0 <= k < |items| ==> UrlKey(items[k]) != url
  {
    var k := FirstWhere(items, (it: Record) => UrlKey(it) == url, 0);
    if k.Some? then Some(items[k.value]) else None
  }

  /** `_find_by_url(site, url)`. */
  function FindByUrl(raw: Raw, site: string, url: string): Option<Record> {
    FirstWithUrl(SiteItems(raw, site), Text.Strip(url))
  }

  /** `get_for_query(site, query)`. */
  function GetForQuery(raw: Raw, site: string, query: string): Result<Option<Record>, CacheError> {
    GetForKey(raw, site, NormQuery(query))
  }

  /** `get_for_query` once the query is normalised to `key`: a missing or
      falsy index entry answers nothing, a string entry is looked up by URL. */
  function GetForKey(raw: Raw, site: string, key: string): Result<Option<Record>, CacheError> {
    var qidx := AsMapping(Lookup(raw, "query_index"));
    if qidx.Failure? then Failure(qidx.error)
    else
      var siteMap := AsMapping(Lookup(qidx.value, site));
      if siteMap.Failure? then Failure(siteMap.error)
      else if key !in siteMap.value || !NodeTruthy(siteMap.value[key]) then Success(None)
      else
        match siteMap.value[key]
        case Str(u) => Success(FindByUrl(raw, site, u))
        case _ => Failure(NotAString)
  }

  /** A file without a query index answers no query, without raising. */
  lemma NoIndexNoAnswer(raw: Raw, site: string, query: string)
    requires "query_index" !in raw
    ensures GetForQuery(raw, site, query) == Success(None)
  {
  }

  /** Once the index maps a query to a non-empty URL, every query with the
      same normal form is looked up by that URL. */
  lemma IndexedQueryLooksUpUrl(raw: Raw, site: string, query: string, other: string, e: Record)
    requires IndexUsable(raw, site)
    requires UrlKey(e) != ""
    requires NormQuery(other) == NormQuery(query)
    ensures var r := IndexQuery(raw, site, NormQuery(query), UrlKey(e)).value;
            GetForQuery(r, site, other) == Success(FindByUrl(r, site, UrlKey(e)))
  {
    IndexedKeyLooksUpUrl(raw, site, NormQuery(query), UrlKey(e));
  }

  lemma IndexedKeyLooksUpUrl(raw: Raw, site: string, key: string, url: string)
    requires IndexUsable(raw, site) && url != ""
    ensures var r := IndexQuery(raw, site, key, url).value;
            GetForKey(r, site, key) == Success(FindByUrl(r, site, url))
  {
    var qidx := AsMapping(Lookup(raw, "query_index")).value;
    var siteMap := AsMapping(Lookup(qidx, site)).value;
    var siteMap' := siteMap[key := Str(url)];
    var qidx' := qidx[site := Object(siteMap')];
    var r := raw["query_index" := Object(qidx')];
    assert IndexQuery(raw, site, key, url) == Success(r);
    assert AsMapping(Lookup(r, "query_index")) == Success(qidx');
    assert AsMapping(Lookup(qidx', site)) == Success(siteMap');
    assert NodeTruthy(Str(url));
  }

  /** After `upsert_for_query(site, query, entry)` with a non-empty URL, any
      query with the same normal form is answered by an entry with that URL. */
  lemma GetAfterUpsertForQuery(raw: Raw, site: string, query: string, other: string,
                               e: Record, now: real)
    requires IndexUsable(raw, site)
    requires UrlKey(e) != ""
    requires NormQuery(other) == NormQuery(query)
    ensures var w := UpsertForQuery(raw, site, query, e, now);
            && w.raised.None?
            && GetForQuery(w.store, site, other).Success?
            && GetForQuery(w.store, site, other).value.Some?
            && UrlKey(GetForQuery(w.store, site, other).value.value) == UrlKey(e)
  {
    var afterUpsert := Upsert(raw, site, e, now);
    assert Lookup(afterUpsert, "query_index") == Lookup(raw, "query_index");
    assert IndexUsable(afterUpsert, site);
    var w := UpsertForQuery(raw, site, query, e, now);
    assert w.store == IndexQuery(afterUpsert, site, NormQuery(query), UrlKey(e)).value;
    IndexedQueryLooksUpUrl(afterUpsert, site, query, other, e);
    var url := UrlKey(e);
    Text.StripIdempotent(OrEmpty(e.url));
    UpsertedIsFound(SiteItems(raw, site), e, now);
    assert SiteItems(w.store, site) == UpsertItems(SiteItems(raw, site), e, now);
    assert FirstWithUrl(SiteItems(w.store, site), url).Some?;
  }
}

/** The listing crawls of the standalone crawlers: page URLs, the rule that
    keeps a product tile, de-duplication by URL, and the page loops of
    `crawl_listing` (`vexio_crawler.py`, `altex_crawler.py`) and
    `crawl_category_async` (`vexio_test.py`). The browser is abstracted to
    what it yields per URL: the outcome of each navigation attempt and the
    tiles of the loaded page. */
module Crawl {
  import opened Wrappers
  import Text
  import CrawlPrice
  import Retry

  // -------------------------------------------------------------- URLs

  /** The base's "directory": everything up to and including its last
      `/` (empty when it has none). */
  function Dir(s: string): (r: string)
    ensures |r| <= |s| && r == s[..|r|]
    ensures r == "" || r[|r| - 1] == '/'
    ensures forall i :: |r| <= i < |s| ==> s[i] != '/'
  {
    if |s| == 0 then ""
    else if s[|s| - 1] == '/' then s
    else Dir(s[..|s| - 1])
  }

  /** A base that names a host and no path, such as `https://host`: its
      last `/` is the second one of `://`. */
  predicate AuthorityOnly(base: string) {
    Text.EndsWith(Dir(base), "://") && !Text.EndsWith(base, "/")
  }

  /** `urljoin(base, rel)` for a relative path `rel` without dots, query or
      fragment and a base without query, fragment or empty path segment, as
      the merge of section 5.2.3 of RFC 3986: a base with a host and an empty
      path gets `/` and then `rel`; otherwise `rel` replaces everything after
      the base's last `/`. */
  function UrlJoin(base: string, rel: string): (r: string)
    ensures Text.EndsWith(r, rel)
  {
    if AuthorityOnly(base) then base + "/" + rel else Dir(base) + rel
  }

  /** `urljoin("https://host", rel)` keeps the host. */
  lemma UrlJoinKeepsHost(scheme: string, host: string, rel: string)
    requires forall i :: 0 <= i < |host| ==> host[i] != '/'
    requires |host| > 0
    ensures UrlJoin(scheme + "://" + host, rel) == scheme + "://" + host + "/" + rel
  {
    var base := scheme + "://" + host;
    DirOfSegment(scheme + "://", host);
    assert base[|base| - 1] == host[|host| - 1];
  }

  /** `urljoin("https://host/a/b", rel)` is `https://host/a/` followed by `rel`. */
  lemma UrlJoinReplacesLastSegment(dir: string, segment: string, rel: string)
    requires Text.EndsWith(dir, "/") && !Text.EndsWith(dir, "://")
    requires forall i :: 0 <= i < |segment| ==> segment[i] != '/'
    ensures UrlJoin(dir + segment, rel) == dir + rel
  {
    DirOfSegment(dir, segment);
    if |segment| > 0 {
      var base := dir + segment;
      assert base[|base| - 1] == segment[|segment| - 1];
    } else {
      assert dir + segment == dir;
    }
  }

  lemma DirOfSegment(dir: string, segment: string)
    requires Text.EndsWith(dir, "/")
    requires forall i :: 0 <= i < |segment| ==> segment[i] != '/'
    ensures Dir(dir + segment) == dir
    decreases |segment|
  {
    assert dir[|dir| - 1] == dir[|dir| - 1..][0];
    if |segment| == 0 {
      assert dir + segment == dir;
    } else {
      var s := dir + segment;
      assert s[..|s| - 1] == dir + segment[..|segment| - 1];
      DirOfSegment(dir, segment[..|segment| - 1]);
    }
  }

  /** A base that ends with `/` is extended by `rel`. */
  lemma UrlJoinSlash(base: string, rel: string)
    requires Text.EndsWith(base, "/")
    ensures UrlJoin(base, rel) == base + rel
  {
    DirOfSegment(base, "");
    assert base + "" == base;
  }

  /** The URL of page `page` of a Vexio listing: the base for the first,
      `pagina{page}/` joined to it otherwise. */
  function VexioPageUrl(base: string, page: nat): string {
    if page <= 1 then base else UrlJoin(base, "pagina" + Text.NatToString(page) + "/")
  }

  /** Altex appends the missing `/` before joining. */
  function Slashed(base: string): (r: string)
    ensures Text.EndsWith(r, "/")
  {
    if Text.EndsWith(base, "/") then base else base + "/"
  }

  function AltexPageUrl(base: string, page: nat): string {
    if page <= 1 then base else UrlJoin(Slashed(base), "p/" + Text.NatToString(page) + "/")
  }

  /** A category URL (they end with `/`) gets `pagina{n}/` appended. */
  lemma VexioPageUrlOfCategory(base: string, page: nat)
    requires Text.EndsWith(base, "/") && page >= 2
    ensures VexioPageUrl(base, page) == base + "pagina" + Text.NatToString(page) + "/"
  {
    UrlJoinSlash(base, "pagina" + Text.NatToString(page) + "/");
  }

  /** Any Altex base gets `p/{n}/` appended after its (added) slash. */
  lemma AltexPageUrlAppends(base: string, page: nat)
    requires page >= 2
    ensures AltexPageUrl(base, page) == Slashed(base) + "p/" + Text.NatToString(page) + "/"
    ensures Text.StartsWith(AltexPageUrl(base, page), base)
  {
    UrlJoinSlash(Slashed(base), "p/" + Text.NatToString(page) + "/");
    var r := AltexPageUrl(base, page);
    assert r[..|base|] == Slashed(base)[..|base|];
  }

  // ---------------------------------------------------------- products

  /** A product as the crawl keeps it. */
  datatype Product = Product(title: string, price: Option<real>, url: string)

  /** A tile as read from the page, before the keep rule. */
  datatype Raw = Raw(title: Option<string>, price: Option<real>, url: Option<string>)

  /** A Python string that is truthy: present and not empty. */
  predicate Truthy(s: Option<string>) {
    s.Some? && s.value != ""
  }

  predicate Kept(r: Raw) {
    Truthy(r.title) && Truthy(r.url)
  }

  function ProductOf(r: Raw): Product
    requires Kept(r)
  {
    Product(r.title.value, r.price, r.url.value)
  }

  /** `if title and product_url: results.append(...)` over the tiles. */
  function Keep(raws: seq<Raw>): (ps: seq<Product>)
    ensures |ps| <= |raws|
    ensures forall i :: 0 <= i < |ps| ==> ps[i].title != "" && ps[i].url != ""
  {
    if |raws| == 0 then []
    else (if Kept(raws[0]) then [ProductOf(raws[0])] else []) + Keep(raws[1..])
  }

  /** Keeping works tile by tile: a kept tile contributes its product, a
      dropped one nothing, in page order. */
  lemma {:induction false} KeepAppend(a: seq<Raw>, b: seq<Raw>)
    ensures Keep(a + b) == Keep(a) + Keep(b)
  {
    if |a| == 0 {
      assert a + b == b;
    } else {
      assert (a + b)[1..] == a[1..] + b;
      KeepAppend(a[1..], b);
    }
  }

  lemma KeepOne(r: Raw)
    ensures Keep([r]) == if Kept(r) then [ProductOf(r)] else []
  {
    assert [r][1..] == [];
  }

  /** A page where every tile has a title and a URL loses nothing. */
  lemma {:induction false} KeepAllKept(raws: seq<Raw>)
    requires forall i :: 0 <= i < |raws| ==> Kept(raws[i])
    ensures |Keep(raws)| == |raws|
    ensures forall i :: 0 <= i < |raws| ==> Keep(raws)[i] == ProductOf(raws[i])
  {
    if |raws| > 0 {
      KeepAllKept(raws[1..]);
    }
  }

  /** A Vexio tile: the `h2.name a` anchor's text and `href` (`None` when the
      anchor is missing), and the `div.price strong` text. */
  datatype VexioTile = VexioTile(anchor: Option<(string, Option<string>)>, priceText: Option<string>)

  function VexioRaw(t: VexioTile): Raw {
    var price := if t.priceText.Some? then CrawlPrice.ParsePrice(CrawlPrice.Vexio, t.priceText.value) else None;
    match t.anchor
    case None => Raw(None, price, None)
    case Some((text, href)) => Raw(Some(Text.Strip(text)), price, href)
  }

  /** An Altex tile: the `span.Product-name` text, the `a[title]` `href`, and
      the `.Price` text with the `span.Price-int` text as its fallback. */
  datatype AltexTile = AltexTile(name: Option<string>, href: Option<string>,
                                 priceText: Option<string>, intText: Option<string>)

  function AltexRaw(t: AltexTile): Raw {
    var price :=
      if t.priceText.Some? then CrawlPrice.ParsePrice(CrawlPrice.Altex, t.priceText.value)
      else if t.intText.Some? then CrawlPrice.ParsePrice(CrawlPrice.Altex, t.intText.value)
      else None;
    var title := if t.name.Some? then Some(Text.Strip(t.name.value)) else None;
    Raw(title, price, t.href)
  }

  /** A `vexio_test.py` tile: the anchor's text and its joined URL (`None`
      when the anchor or its `href` is missing), and the price text. */
  datatype TestTile = TestTile(anchor: Option<(string, string)>, priceText: Option<string>)

  function TestRaw(t: TestTile): Raw {
    var price := if t.priceText.Some? then CrawlPrice.ParseThousands(t.priceText.value) else None;
    match t.anchor
    case None => Raw(None, price, None)
    case Some((text, url)) => Raw(Some(Text.Strip(text)), price, Some(url))
  }

  function MapRaw<T>(f: T -> Raw, ts: seq<T>): (rs: seq<Raw>)
    ensures |rs| == |ts| && forall i :: 0 <= i < |ts| ==> rs[i] == f(ts[i])
  {
    seq(|ts|, (i: int) requires 0 <= i < |ts| => f(ts[i]))
  }

  /** A Vexio page after the wait: `ready` is false when no product box
      appeared in time, which makes `crawl_page` return `[]`. */
  datatype VexioPage = VexioPage(ready: bool, tiles: seq<VexioTile>, hasNext: bool)

  function VexioProducts(p: VexioPage): seq<Product> {
    if p.ready then Keep(MapRaw(VexioRaw, p.tiles)) else []
  }

  function AltexProducts(tiles: seq<AltexTile>): seq<Product> {
    Keep(MapRaw(AltexRaw, tiles))
  }

  function TestProducts(tiles: seq<TestTile>): seq<Product> {
    Keep(MapRaw(TestRaw, tiles))
  }

  // ------------------------------------------------------------- dedup

  /** The URLs of `ps`. */
  function UrlSet(ps: seq<Product>): (urls: set<string>)
    ensures forall i :: 0 <= i < |ps| ==> ps[i].url in urls
  {
    if |ps| == 0 then {} else {ps[0].url} + UrlSet(ps[1..])
  }

  /** Every URL in the set is the URL of some product. */
  lemma {:induction false} UrlSetMember(ps: seq<Product>, x: string)
    requires x in UrlSet(ps)
    ensures exists i :: 0 <= i < |ps| && ps[i].url == x
  {
    if x != ps[0].url {
      UrlSetMember(ps[1..], x);
      var i :| 0 <= i < |ps| - 1 && ps[1..][i].url == x;
      assert ps[i + 1].url == x;
    }
  }

  lemma {:induction false} UrlSetAppend(a: seq<Product>, b: seq<Product>)
    ensures UrlSet(a + b) == UrlSet(a) + UrlSet(b)
  {
    if |a| > 0 {
      assert (a + b)[1..] == a[1..] + b;
      UrlSetAppend(a[1..], b);
    } else {
      assert a + b == b;
    }
  }

  lemma UrlSetEmpty()
    ensures UrlSet([]) == {}
  {
  }

  lemma UrlSetOne(p: Product)
    ensures UrlSet([p]) == {p.url}
  {
    assert [p][1..] == [];
  }

  predicate DistinctUrls(ps: seq<Product>) {
    forall i, j :: 0 <= i < j < |ps| ==> ps[i].url != ps[j].url
  }

  /** The products of `ps` whose URL is new, in order, each URL taken at its
      first occurrence; `seen` holds the URLs already taken. */
  function Fresh(ps: seq<Product>, seen: set<string>): (r: seq<Product>)
    ensures |r| <= |ps|
  {
    if |ps| == 0 then []
    else if ps[0].url in seen then Fresh(ps[1..], seen)
    else [ps[0]] + Fresh(ps[1..], seen + {ps[0].url})
  }

  /** What `Fresh` keeps comes from `ps`, has a URL not seen before, and
      no two kept products share a URL. */
  lemma {:induction false} FreshSound(ps: seq<Product>, seen: set<string>)
    ensures forall i :: 0 <= i < |Fresh(ps, seen)| ==> Fresh(ps, seen)[i] in ps && Fresh(ps, seen)[i].url !in seen
    ensures DistinctUrls(Fresh(ps, seen))
  {
    if |ps| > 0 {
      var rest := ps[1..];
      if ps[0].url in seen {
        FreshSound(rest, seen);
      } else {
        FreshSound(rest, seen + {ps[0].url});
      }
    }
  }

  /** The de-duplication of `crawl_listing`: `if key and key not in seen`,
      which is `Fresh` with the empty URL counted as seen. */
  function Dedup(ps: seq<Product>): seq<Product> {
    Fresh(ps, {""})
  }

  /** The de-duplicated list has distinct non-empty URLs, all taken from
      the input, and loses no non-empty URL. */
  lemma DedupSound(ps: seq<Product>)
    ensures DistinctUrls(Dedup(ps))
    ensures forall i :: 0 <= i < |Dedup(ps)| ==> Dedup(ps)[i] in ps && Dedup(ps)[i].url != ""
    ensures UrlSet(Dedup(ps)) == UrlSet(ps) - {""}
  {
    FreshSound(ps, {""});
    FreshUrls(ps, {""});
  }

  /** Every new URL survives: the URLs taken are exactly those not seen. */
  lemma {:induction false} FreshUrls(ps: seq<Product>, seen: set<string>)
    ensures UrlSet(Fresh(ps, seen)) == UrlSet(ps) - seen
  {
    if |ps| > 0 {
      var rest := ps[1..];
      assert ps == [ps[0]] + rest;
      UrlSetAppend([ps[0]], rest);
      UrlSetOne(ps[0]);
      if ps[0].url in seen {
        FreshUrls(rest, seen);
      } else {
        var tail := Fresh(rest, seen + {ps[0].url});
        FreshUrls(rest, seen + {ps[0].url});
        UrlSetAppend([ps[0]], tail);
      }
    }
  }

  /** Nothing is kept exactly when every URL was seen before. */
  lemma FreshNone(ps: seq<Product>, seen: set<string>)
    ensures Fresh(ps, seen) == [] <==> UrlSet(ps) <= seen
  {
    FreshUrls(ps, seen);
    var r := Fresh(ps, seen);
    if r != [] {
      assert r[0].url in UrlSet(r);
    }
  }

  /** The first product with a given new URL is the one kept. */
  lemma {:induction false} FreshKeepsFirst(ps: seq<Product>, seen: set<string>, i: nat)
    requires i < |ps| && ps[i].url !in seen
    requires forall k :: 0 <= k < i ==> ps[k].url != ps[i].url
    ensures ps[i] in Fresh(ps, seen)
  {
    if i > 0 {
      var rest := ps[1..];
      assert rest[i - 1] == ps[i];
      if ps[0].url in seen {
        FreshKeepsFirst(rest, seen, i - 1);
      } else {
        FreshKeepsFirst(rest, seen + {ps[0].url}, i - 1);
      }
    }
  }

  /** De-duplicating a concatenation: the second part only contributes URLs
      the first did not take. */
  lemma {:induction false} FreshAppend(a: seq<Product>, b: seq<Product>, seen: set<string>)
    ensures Fresh(a + b, seen) == Fresh(a, seen) + Fresh(b, seen + UrlSet(Fresh(a, seen)))
  {
    if |a| == 0 {
      assert a + b == b;
      assert UrlSet([]) == {};
      assert seen + {} == seen;
    } else {
      assert (a + b)[1..] == a[1..] + b;
      if a[0].url in seen {
        FreshAppend(a[1..], b, seen);
      } else {
        var s' := seen + {a[0].url};
        FreshAppend(a[1..], b, s');
        var tail := Fresh(a[1..], s');
        UrlSetAppend([a[0]], tail);
        UrlSetOne(a[0]);
        assert s' + UrlSet(tail) == seen + UrlSet([a[0]] + tail);
      }
    }
  }

  /** The `seen`/`deduped` loop of `crawl_listing`. */
  method DedupLoop(all: seq<Product>) returns (deduped: seq<Product>)
    ensures deduped == Dedup(all)
  {
    deduped := [];
    var seen: set<string> := {};
    var i := 0;
    assert all[0..] == all && seen + {""} == {""};
    while i < |all|
      invariant 0 <= i <= |all|
      invariant Dedup(all) == deduped + Fresh(all[i..], seen + {""})
    {
      var key := all[i].url;
      assert all[i..][1..] == all[i + 1..];
      if key != "" && key !in seen {
        deduped := deduped + [all[i]];
        seen := seen + {key};
        assert seen + {""} == (seen - {key}) + {""} + {key};
      }
      i := i + 1;
    }
  }

  // ------------------------------------------------------------- pages

  /** The products of the pages at `urls`, in visiting order. */
  function Gather(products: string -> seq<Product>, urls: seq<string>): seq<Product> {
    if |urls| == 0 then [] else Gather(products, urls[..|urls| - 1]) + products(urls[|urls| - 1])
  }

  /** Every navigation attempt to a URL fails, so `safe_get` raises. */
  predicate Unreachable<E>(load: nat -> Option<E>) {
    forall k :: 0 <= k <= Retry.DefaultRetries ==> load(k).Some?
  }

  /** What a crawl did: the page URLs it visited, in order, the products it
      returned, and the exception it raised out of `safe_get`, if any. */
  datatype Crawled<E> = Crawled(visited: seq<string>, items: seq<Product>, raised: Option<E>)

  lemma GatherSnoc(products: string -> seq<Product>, urls: seq<string>, u: string)
    ensures Gather(products, urls + [u]) == Gather(products, urls) + products(u)
  {
    assert (urls + [u])[..|urls|] == urls;
  }

  /** `safe_get` raises exactly when every attempt fails. */
  lemma RaisedIffUnreachable<E>(l: nat -> Option<E>, nav: Retry.Navigation<E>)
    requires 1 <= nav.attempts <= Retry.DefaultRetries + 1
    requires forall k :: 0 <= k < nav.attempts - 1 ==> l(k).Some?
    requires nav.attempts <= Retry.DefaultRetries ==> l(nav.attempts - 1).None?
    requires nav.raised.Some? <==> l(nav.attempts - 1).Some?
    requires nav.raised.Some? ==> nav.attempts == Retry.DefaultRetries + 1
    ensures nav.raised.Some? <==> Unreachable(l)
  {
    if nav.raised.Some? {
      forall k | 0 <= k <= Retry.DefaultRetries
        ensures l(k).Some?
      {
        if k < nav.attempts - 1 {
          assert l(k).Some?;
        }
      }
    }
  }

  /** The `while page <= max_pages` loop of `crawl_listing`, shared by both
      crawlers: page URLs from `pageUrl`, at most `maxPages` of them, ending
      on an empty page or one without a next link; a navigation that keeps
      failing raises. `all` is `all_items` when the loop ends. */
  method PageLoop<E>(load: string -> nat -> Option<E>, products: string -> seq<Product>,
                     hasNext: string -> bool, pageUrl: nat -> string, maxPages: int,
                     waitAfter: real, backoff: nat -> real)
    returns (visited: seq<string>, all: seq<Product>, raised: Option<E>)
    ensures |visited| <= if maxPages < 0 then 0 else maxPages
    ensures maxPages >= 1 ==> |visited| >= 1
    ensures forall i :: 0 <= i < |visited| ==> visited[i] == pageUrl(i + 1)
    ensures forall i :: 0 <= i < |visited| - 1 ==>
              !Unreachable(load(visited[i])) && products(visited[i]) != [] && hasNext(visited[i])
    ensures raised.Some? <==> 0 < |visited| && Unreachable(load(visited[|visited| - 1]))
    ensures raised.Some? ==> raised == load(visited[|visited| - 1])(Retry.DefaultRetries)
    ensures raised.None? ==> all == Gather(products, visited)
    ensures raised.None? && 0 < |visited| < maxPages ==>
              products(visited[|visited| - 1]) == [] || !hasNext(visited[|visited| - 1])
  {
    visited, all, raised := [], [], None;
    var page := 1;
    while page <= maxPages
      invariant 1 <= page && |visited| == page - 1
      invariant page - 1 <= if maxPages < 0 then 0 else maxPages
      invariant forall i :: 0 <= i < |visited| ==> visited[i] == pageUrl(i + 1)
      invariant forall i :: 0 <= i < |visited| ==>
                  !Unreachable(load(visited[i])) && products(visited[i]) != [] && hasNext(visited[i])
      invariant all == Gather(products, visited)
    {
      var url := pageUrl(page);
      var nav := Retry.SafeGet(load(url), Retry.DefaultRetries, waitAfter, backoff);
      GatherSnoc(products, visited, url);
      visited := visited + [url];
      RaisedIffUnreachable(load(url), nav);
      if nav.raised.Some? {
        raised := nav.raised;
        return;
      }
      var items := products(url);
      all := all + items;
      if items == [] || !hasNext(url) {
        break;
      }
      page := page + 1;
    }
  }

  /** `crawl_listing`: the page loop, then the de-duplication by URL. */
  method CrawlListing<E>(load: string -> nat -> Option<E>, products: string -> seq<Product>,
                         hasNext: string -> bool, pageUrl: nat -> string, maxPages: int,
                         waitAfter: real, backoff: nat -> real)
    returns (c: Crawled<E>)
    ensures |c.visited| <= if maxPages < 0 then 0 else maxPages
    ensures maxPages >= 1 ==> |c.visited| >= 1
    ensures forall i :: 0 <= i < |c.visited| ==> c.visited[i] == pageUrl(i + 1)
    ensures forall i :: 0 <= i < |c.visited| - 1 ==>
              !Unreachable(load(c.visited[i])) && products(c.visited[i]) != [] && hasNext(c.visited[i])
    ensures c.raised.Some? <==> 0 < |c.visited| && Unreachable(load(c.visited[|c.visited| - 1]))
    ensures c.raised.Some? ==> c.raised == load(c.visited[|c.visited| - 1])(Retry.DefaultRetries) && c.items == []
    ensures c.raised.None? ==> c.items == Dedup(Gather(products, c.visited))
    ensures c.raised.None? && 0 < |c.visited| < maxPages ==>
              products(c.visited[|c.visited| - 1]) == [] || !hasNext(c.visited[|c.visited| - 1])
  {
    var visited, all, raised := PageLoop(load, products, hasNext, pageUrl, maxPages, waitAfter, backoff);
    if raised.Some? {
      return Crawled(visited, [], raised);
    }
    var deduped := DedupLoop(all);
    c := Crawled(visited, deduped, None);
  }

  /** `crawl_listing` of `vexio_crawler.py`: `page(url)` is the listing page
      the browser shows at `url`. */
  method VexioCrawlListing<E>(load: string -> nat -> Option<E>, page: string -> VexioPage,
                              base: string, maxPages: int)
    returns (c: Crawled<E>)
    ensures |c.visited| <= if maxPages < 0 then 0 else maxPages
    ensures forall i :: 0 <= i < |c.visited| ==> c.visited[i] == VexioPageUrl(base, i + 1)
    ensures maxPages >= 1 ==> |c.visited| >= 1
    ensures forall i :: 0 <= i < |c.visited| - 1 ==> !Unreachable(load(c.visited[i]))
    ensures c.raised.Some? <==> 0 < |c.visited| && Unreachable(load(c.visited[|c.visited| - 1]))
    ensures c.raised.Some? ==> c.raised == load(c.visited[|c.visited| - 1])(Retry.DefaultRetries) && c.items == []
    ensures forall i :: 0 <= i < |c.visited| - 1 ==>
              VexioProducts(page(c.visited[i])) != [] && page(c.visited[i]).hasNext
    ensures c.raised.None? ==>
              c.items == Dedup(Gather((u: string) => VexioProducts(page(u)), c.visited))
    ensures c.raised.None? && 0 < |c.visited| < maxPages ==>
              var last := page(c.visited[|c.visited| - 1]);
              VexioProducts(last) == [] || !last.hasNext
  {
    c := CrawlListing(load, (u: string) => VexioProducts(page(u)), (u: string) => page(u).hasNext,
                      (n: nat) => VexioPageUrl(base, n), maxPages, Retry.VexioWaitAfter, Retry.VexioBackoff);
  }

  /** `crawl_listing` of `altex_crawler.py`: no next-link check, so only an
      empty page (or `max_pages`) ends the loop; `tiles(url)` is the page's
      product tiles. */
  method AltexCrawlListing<E>(load: string -> nat -> Option<E>, tiles: string -> seq<AltexTile>,
                              base: string, maxPages: int)
    returns (c: Crawled<E>)
    ensures |c.visited| <= if maxPages < 0 then 0 else maxPages
    ensures forall i :: 0 <= i < |c.visited| ==> c.visited[i] == AltexPageUrl(base, i + 1)
    ensures maxPages >= 1 ==> |c.visited| >= 1
    ensures forall i :: 0 <= i < |c.visited| - 1 ==> !Unreachable(load(c.visited[i]))
    ensures c.raised.Some? <==> 0 < |c.visited| && Unreachable(load(c.visited[|c.visited| - 1]))
    ensures c.raised.Some? ==> c.raised == load(c.visited[|c.visited| - 1])(Retry.DefaultRetries) && c.items == []
    ensures forall i :: 0 <= i < |c.visited| - 1 ==> AltexProducts(tiles(c.visited[i])) != []
    ensures c.raised.None? ==>
              c.items == Dedup(Gather((u: string) => AltexProducts(tiles(u)), c.visited))
    ensures c.raised.None? && 0 < |c.visited| < maxPages ==>
              AltexProducts(tiles(c.visited[|c.visited| - 1])) == []
  {
    c := CrawlListing(load, (u: string) => AltexProducts(tiles(u)), (u: string) => true,
                      (n: nat) => AltexPageUrl(base, n), maxPages, Retry.AltexWaitAfter, Retry.AltexBackoff);
  }

  // ---------------------------------------------------- vexio_test crawl

  /** The inner loop of `crawl_category_async`: append the products whose URL
      was not seen yet, recording their URLs. */
  method Absorb(all: seq<Product>, seen: set<string>, items: seq<Product>)
    returns (all': seq<Product>, seen': set<string>)
    ensures all' == all + Fresh(items, seen)
    ensures seen' == seen + UrlSet(Fresh(items, seen))
  {
    all', seen' := all, seen;
    ghost var added: seq<Product> := [];
    var i := 0;
    assert items[0..] == items;
    UrlSetEmpty();
    while i < |items|
      invariant 0 <= i <= |items|
      invariant all' == all + added
      invariant seen' == seen + UrlSet(added)
      invariant Fresh(items, seen) == added + Fresh(items[i..], seen')
    {
      var p := items[i];
      AbsorbStep(items, i, seen', added, Fresh(items, seen));
      if p.url !in seen' {
        UrlSetSnoc(added, p);
        all' := all' + [p];
        added := added + [p];
        seen' := seen' + {p.url};
      }
      i := i + 1;
    }
    assert items[i..] == [];
    assert Fresh(items[i..], seen') == [];
    assert added + [] == added;
    assert Fresh(items, seen) == added;
  }

  /** The loop invariant of `Absorb` carried over position `i`: the URL
      `items[i]` is skipped when seen, and taken otherwise. */
  lemma AbsorbStep(items: seq<Product>, i: nat, seen': set<string>, added: seq<Product>, total: seq<Product>)
    requires i < |items|
    requires total == added + Fresh(items[i..], seen')
    ensures items[i].url in seen' ==> total == added + Fresh(items[i + 1..], seen')
    ensures items[i].url !in seen' ==>
              total == (added + [items[i]]) + Fresh(items[i + 1..], seen' + {items[i].url})
  {
    var p := items[i];
    FreshStep(items, i, seen');
    if p.url !in seen' {
      var rest := Fresh(items[i + 1..], seen' + {p.url});
      assert added + ([p] + rest) == (added + [p]) + rest;
    }
  }

  lemma UrlSetSnoc(a: seq<Product>, p: Product)
    ensures UrlSet(a + [p]) == UrlSet(a) + {p.url}
  {
    UrlSetAppend(a, [p]);
    UrlSetOne(p);
  }

  /** One step of `Fresh` at position `i`. */
  lemma FreshStep(ps: seq<Product>, i: nat, seen: set<string>)
    requires i < |ps|
    ensures Fresh(ps[i..], seen) ==
              if ps[i].url in seen then Fresh(ps[i + 1..], seen)
              else [ps[i]] + Fresh(ps[i + 1..], seen + {ps[i].url})
  {
    assert ps[i..][0] == ps[i];
    assert ps[i..][1..] == ps[i + 1..];
  }

  /** A try of `fetch_page_async` parses the tiles inside the `try`, so a
      successful try yields the page's products and its next-link flag. */
  function PageOf<E>(r: Result<(seq<TestTile>, bool), E>): Result<(seq<Product>, bool), E> {
    match r
    case Success(v) => Success((TestProducts(v.0), v.1))
    case Failure(e) => Failure(e)
  }

  /** What `fetch_page_async` returns for a page whose tries have outcomes
      `get`: the first success, or an empty page without a next link. */
  function Fetched<P, E>(get: nat -> Result<(seq<P>, bool), E>): (seq<P>, bool) {
    if get(0).Success? then get(0).value
    else if get(1).Success? then get(1).value
    else ([], false)
  }

  /** Whether `crawl_category_async` stops after the page at `url`, the
      earlier pages having taken the URLs `seen`: the page is empty, adds no
      URL not seen before, or has no next link. */
  predicate Stops(products: string -> seq<Product>, next: string -> bool, url: string, seen: set<string>) {
    products(url) == [] || UrlSet(products(url)) <= seen || !next(url)
  }

  /** `Stops` as the stop rule of a walk. */
  function StopRule(products: string -> seq<Product>, next: string -> bool): (string, set<string>) -> bool {
    (u: string, seen: set<string>) => Stops(products, next, u, seen)
  }

  /** The page URLs a crawl visits from page `page` on, the earlier pages
      having taken the URLs `seen`: one per page up to `maxPages`, ending
      at the first page after which `stops` holds. */
  function Walk(stops: (string, set<string>) -> bool, products: string -> seq<Product>, pageUrl: nat -> string,
                maxPages: int, page: nat, seen: set<string>): (urls: seq<string>)
    ensures |urls| <= if maxPages < page then 0 else maxPages - page + 1
    ensures page <= maxPages ==> |urls| >= 1
    decreases if maxPages < page then 0 else maxPages - page + 1
  {
    if page > maxPages then []
    else if stops(pageUrl(page), seen) then [pageUrl(page)]
    else [pageUrl(page)] + Walk(stops, products, pageUrl, maxPages, page + 1, seen + UrlSet(products(pageUrl(page))))
  }

  /** The walk visits the pages in order, one URL per page number. */
  lemma {:induction false} WalkUrls(stops: (string, set<string>) -> bool, products: string -> seq<Product>,
                                    pageUrl: nat -> string, maxPages: int, page: nat, seen: set<string>)
    ensures forall i :: 0 <= i < |Walk(stops, products, pageUrl, maxPages, page, seen)| ==> Walk(stops, products, pageUrl, maxPages, page, seen)[i] == pageUrl(page + i)
    decreases if maxPages < page then 0 else maxPages - page + 1
  {
    if page <= maxPages && !stops(pageUrl(page), seen) {
      var seen' := seen + UrlSet(products(pageUrl(page)));
      WalkUrls(stops, products, pageUrl, maxPages, page + 1, seen');
      var rest := Walk(stops, products, pageUrl, maxPages, page + 1, seen');
      var w := [pageUrl(page)] + rest;
      assert w == Walk(stops, products, pageUrl, maxPages, page, seen);
      forall i | 0 < i < |w|
        ensures w[i] == pageUrl(page + i)
      {
        assert w[i] == rest[i - 1];
        assert rest[i - 1] == pageUrl(page + 1 + (i - 1));
      }
    }
  }

  lemma AppendAssoc<T>(a: seq<T>, b: seq<T>, c: seq<T>)
    ensures a + (b + c) == (a + b) + c
  {
  }

  /** The products of `[u] + urls`: page `u` comes first. */
  lemma {:induction false} GatherCons(products: string -> seq<Product>, u: string, urls: seq<string>)
    ensures Gather(products, [u] + urls) == products(u) + Gather(products, urls)
    decreases |urls|
  {
    if |urls| > 0 {
      var init := urls[..|urls| - 1];
      var last := urls[|urls| - 1];
      assert ([u] + urls)[..|urls|] == [u] + init;
      GatherCons(products, u, init);
      assert products(u) + Gather(products, init) + products(last)
          == products(u) + (Gather(products, init) + products(last));
    } else {
      assert ([u] + urls)[..0] == [];
    }
  }

  /** The URLs the pages before position `i + 1` of `[u] + rest` took. */
  lemma SeenPrefix(products: string -> seq<Product>, seen: set<string>, u: string, rest: seq<string>, i: nat)
    requires i <= |rest|
    ensures seen + UrlSet(Gather(products, ([u] + rest)[..i + 1]))
         == (seen + UrlSet(products(u))) + UrlSet(Gather(products, rest[..i]))
  {
    assert ([u] + rest)[..i + 1] == [u] + rest[..i];
    GatherCons(products, u, rest[..i]);
    UrlSetAppend(products(u), Gather(products, rest[..i]));
  }

  lemma SeenNone(products: string -> seq<Product>, seen: set<string>, w: seq<string>)
    ensures seen + UrlSet(Gather(products, w[..0])) == seen
  {
    assert w[..0] == [];
  }

  /** No page before the last stops the crawl. */
  lemma {:induction false} WalkGoesOn(stops: (string, set<string>) -> bool, products: string -> seq<Product>,
                                      pageUrl: nat -> string, maxPages: int, page: nat, seen: set<string>)
    ensures forall i :: 0 <= i < |Walk(stops, products, pageUrl, maxPages, page, seen)| - 1 ==>
              !stops(Walk(stops, products, pageUrl, maxPages, page, seen)[i], seen + UrlSet(Gather(products, Walk(stops, products, pageUrl, maxPages, page, seen)[..i])))
    decreases if maxPages < page then 0 else maxPages - page + 1
  {
    if page <= maxPages && !stops(pageUrl(page), seen) {
      var u := pageUrl(page);
      var seen' := seen + UrlSet(products(u));
      var rest := Walk(stops, products, pageUrl, maxPages, page + 1, seen');
      WalkGoesOn(stops, products, pageUrl, maxPages, page + 1, seen');
      var w := [u] + rest;
      assert w == Walk(stops, products, pageUrl, maxPages, page, seen);
      forall i | 0 <= i < |w| - 1
        ensures !stops(w[i], seen + UrlSet(Gather(products, w[..i])))
      {
        if i == 0 {
          SeenNone(products, seen, w);
        } else {
          SeenPrefix(products, seen, u, rest, i - 1);
          assert w[i] == rest[i - 1];
        }
      }
    }
  }

  /** The last page stops the crawl, unless the page limit did. */
  lemma {:induction false} WalkEnds(stops: (string, set<string>) -> bool, products: string -> seq<Product>,
                                    pageUrl: nat -> string, maxPages: int, page: nat, seen: set<string>)
    ensures var w := Walk(stops, products, pageUrl, maxPages, page, seen);
            0 < |w| && page + |w| - 1 < maxPages ==> stops(w[|w| - 1], seen + UrlSet(Gather(products, w[..|w| - 1])))
    decreases if maxPages < page then 0 else maxPages - page + 1
  {
    if page > maxPages {
    } else if stops(pageUrl(page), seen) {
      SeenNone(products, seen, [pageUrl(page)]);
    } else {
      var u := pageUrl(page);
      var seen' := seen + UrlSet(products(u));
      var rest := Walk(stops, products, pageUrl, maxPages, page + 1, seen');
      WalkEnds(stops, products, pageUrl, maxPages, page + 1, seen');
      var w := [u] + rest;
      assert w == Walk(stops, products, pageUrl, maxPages, page, seen);
      if page + |w| - 1 < maxPages {
        SeenPrefix(products, seen, u, rest, |rest| - 1);
        assert w[|w| - 1] == rest[|rest| - 1];
      }
    }
  }

  /** The products `crawl_category_async` reads at each URL, when try `k`
      at `url` has outcome `get(url)(k)`. */
  function CategoryProducts<E>(get: string -> nat -> Result<(seq<TestTile>, bool), E>): string -> seq<Product> {
    (u: string) => TestProducts(Fetched(get(u)).0)
  }

  function CategoryNext<E>(get: string -> nat -> Result<(seq<TestTile>, bool), E>): string -> bool {
    (u: string) => Fetched(get(u)).1
  }

  function CategoryPageUrl(category: string): nat -> string {
    (n: nat) => VexioPageUrl(category, n)
  }

  /** `crawl_category_async(category_url, max_pages)`: `get(url)(k)` is the
      outcome of try `k` at `url`. The pages visited are those of `Walk`;
      the products are the first of each URL over those pages. */
  method CrawlCategory<E>(get: string -> nat -> Result<(seq<TestTile>, bool), E>,
                          category: string, maxPages: int)
    returns (visited: seq<string>, items: seq<Product>)
    ensures var products, next := CategoryProducts(get), CategoryNext(get);
            visited == Walk(StopRule(products, next), products, CategoryPageUrl(category), maxPages, 1, {})
    ensures items == Fresh(Gather(CategoryProducts(get), visited), {})
    ensures DistinctUrls(items)
    ensures |visited| <= if maxPages < 0 then 0 else maxPages
    ensures maxPages >= 1 ==> |visited| >= 1
    ensures forall i :: 0 <= i < |visited| ==> visited[i] == VexioPageUrl(category, i + 1)
  {
    var products, next := CategoryProducts(get), CategoryNext(get);
    var pages := (u: string) => (k: nat) => PageOf(get(u)(k));
    forall u
      ensures products(u) == Fetched(pages(u)).0 && next(u) == Fetched(pages(u)).1
    {
    }
    visited, items := CategoryLoop(pages, products, next, CategoryPageUrl(category), maxPages);
    FreshSound(Gather(products, visited), {});
    CategoryPages(get, category, maxPages);
  }

  /** The category walk visits at most `maxPages` pages, at least one when
      `maxPages` allows, page `n` at `VexioPageUrl(category, n)`. */
  lemma CategoryPages<E>(get: string -> nat -> Result<(seq<TestTile>, bool), E>, category: string, maxPages: int)
    ensures var products, next := CategoryProducts(get), CategoryNext(get);
            var visited := Walk(StopRule(products, next), products, CategoryPageUrl(category), maxPages, 1, {});
            && |visited| <= (if maxPages < 0 then 0 else maxPages)
            && (maxPages >= 1 ==> |visited| >= 1)
    ensures forall i :: 0 <= i < |Walk(StopRule(CategoryProducts(get), CategoryNext(get)), CategoryProducts(get),
                                        CategoryPageUrl(category), maxPages, 1, {})| ==>
              Walk(StopRule(CategoryProducts(get), CategoryNext(get)), CategoryProducts(get),
                   CategoryPageUrl(category), maxPages, 1, {})[i] == VexioPageUrl(category, i + 1)
  {
    var products, next := CategoryProducts(get), CategoryNext(get);
    var visited := Walk(StopRule(products, next), products, CategoryPageUrl(category), maxPages, 1, {});
    WalkUrls(StopRule(products, next), products, CategoryPageUrl(category), maxPages, 1, {});
    forall i | 0 <= i < |visited|
      ensures visited[i] == VexioPageUrl(category, i + 1)
    {
      assert visited[i] == CategoryPageUrl(category)(1 + i);
    }
  }

  /** One page of `crawl_category_async`: fetch it and, when it has
      products, add those whose URL is new. `before` is what the earlier
      pages gathered. */
  method CategoryPage<E>(get: string -> nat -> Result<(seq<Product>, bool), E>, url: string,
                         items: seq<Product>, seen: set<string>, ghost before: seq<Product>)
    returns (found: seq<Product>, hasNext: bool, items': seq<Product>, seen': set<string>)
    requires items == Fresh(before, {}) && seen == UrlSet(before)
    ensures (found, hasNext) == Fetched(get(url))
    ensures items' == Fresh(before + found, {})
    ensures seen' == seen + UrlSet(found)
    ensures found != [] ==> (|items'| == |items| <==> UrlSet(found) <= seen)
  {
    var attempts, pauses;
    found, hasNext, attempts, pauses := Retry.FetchPage(get(url));
    FreshAppend(before, found, {});
    FreshUrls(before, {});
    assert {} + UrlSet(items) == seen;
    if found == [] {
      assert before + found == before;
      UrlSetEmpty();
      items', seen' := items, seen;
    } else {
      items', seen' := Absorb(items, seen, found);
      FreshUrls(found, seen);
      FreshNone(found, seen);
    }
  }

  /** The page loop of `crawl_category_async`, with `products(url)` and
      `next(url)` what the page at `url` yields. */
  method CategoryLoop<E>(get: string -> nat -> Result<(seq<Product>, bool), E>,
                         products: string -> seq<Product>, next: string -> bool,
                         pageUrl: nat -> string, maxPages: int)
    returns (visited: seq<string>, items: seq<Product>)
    requires forall u :: products(u) == Fetched(get(u)).0 && next(u) == Fetched(get(u)).1
    ensures visited == Walk(StopRule(products, next), products, pageUrl, maxPages, 1, {})
    ensures items == Fresh(Gather(products, visited), {})
  {
    visited := [];
    items := [];
    var seen: set<string> := {};
    ghost var gathered: seq<Product> := [];
    ghost var walk := Walk(StopRule(products, next), products, pageUrl, maxPages, 1, {});
    var page := 1;
    UrlSetEmpty();
    while page <= maxPages
      invariant 1 <= page
      invariant walk == visited + Walk(StopRule(products, next), products, pageUrl, maxPages, page, seen)
      invariant gathered == Gather(products, visited)
      invariant items == Fresh(gathered, {})
      invariant seen == UrlSet(gathered)
    {
      var url := pageUrl(page);
      var found, hasNext, items', seen' := CategoryPage(get, url, items, seen, gathered);
      assert found == products(url) && hasNext == next(url);
      ghost var rest := Walk(StopRule(products, next), products, pageUrl, maxPages, page, seen);
      GatherSnoc(products, visited, url);
      UrlSetAppend(gathered, found);
      if found == [] || |items'| == |items| || !hasNext {
        assert Stops(products, next, url, seen);
        assert rest == [url];
        visited, items := visited + [url], items';
        return;
      }
      assert !Stops(products, next, url, seen);
      assert rest == [url] + Walk(StopRule(products, next), products, pageUrl, maxPages, page + 1, seen');
      AppendAssoc(visited, [url], Walk(StopRule(products, next), products, pageUrl, maxPages, page + 1, seen'));
      visited := visited + [url];
      gathered := gathered + found;
      items, seen := items', seen';
      page := page + 1;
    }
    assert visited + [] == visited;
  }
}

/** `get_main_categories` of the Vexio crawlers (`vexio_crawler.py`,
    `vexio_test.py`): the top-level menu links of the shop's home page,
    kept when they point into the shop, given a trailing `/`, de-duplicated
    and sorted. The page is abstracted to whether the menu appeared in time
    and the `href` attribute of each menu link (`None` when it is missing or
    reading it raised). */
module Categories {
  import opened Wrappers
  import Text
  import Crawl

  const ShopRoot := "https://www.vexio.ro/"

  /** A link the crawl keeps: present and inside the shop. */
  predicate InShop(href: Option<string>) {
    href.Some? && Text.StartsWith(href.value, ShopRoot)
  }

  /** Python's `sorted` on a set of strings: strictly increasing in code-point
      order, so also free of repeats. */
  predicate StrictlySorted(xs: seq<string>) {
    forall i, j :: 0 <= i < j < |xs| ==> Text.LexLess(xs[i], xs[j])
  }

  /** Adds `x` to a sorted list of distinct strings, keeping it so. */
  function Insert(x: string, xs: seq<string>): (r: seq<string>)
    requires StrictlySorted(xs)
    ensures StrictlySorted(r)
    ensures forall y :: y in r <==> y == x || y in xs
    ensures |r| <= |xs| + 1
  {
    if |xs| == 0 then [x]
    else if x == xs[0] then xs
    else if Text.LexLess(x, xs[0]) then
      InsertFront(x, xs);
      [x] + xs
    else
      Text.LexLessTotal(x, xs[0]);
      var rest := Insert(x, xs[1..]);
      InsertBehind(xs[0], rest, xs[1..], x);
      [xs[0]] + rest
  }

  lemma InsertFront(x: string, xs: seq<string>)
    requires StrictlySorted(xs) && |xs| > 0 && Text.LexLess(x, xs[0])
    ensures StrictlySorted([x] + xs)
  {
    var r := [x] + xs;
    forall i, j | 0 <= i < j < |r|
      ensures Text.LexLess(r[i], r[j])
    {
      if i == 0 && j > 1 {
        Text.LexLessTransitive(x, xs[0], xs[j - 1]);
      }
    }
  }

  lemma InsertBehind(h: string, rest: seq<string>, tail: seq<string>, x: string)
    requires StrictlySorted([h] + tail) && StrictlySorted(rest)
    requires Text.LexLess(h, x)
    requires forall y :: y in rest ==> y == x || y in tail
    ensures StrictlySorted([h] + rest)
  {
    var r := [h] + rest;
    forall i, j | 0 <= i < j < |r|
      ensures Text.LexLess(r[i], r[j])
    {
      if i == 0 {
        assert r[j] in rest;
        if r[j] != x {
          var k :| 0 <= k < |tail| && tail[k] == r[j];
          assert ([h] + tail)[0] == h && ([h] + tail)[k + 1] == tail[k];
        }
      } else {
        assert r[i] == rest[i - 1] && r[j] == rest[j - 1];
      }
    }
  }

  /** The loop over the menu links: each kept link, with its slash, joins the
      set, which is held as a sorted list. */
  function Collect(hrefs: seq<Option<string>>, acc: seq<string>): (r: seq<string>)
    requires StrictlySorted(acc)
    ensures StrictlySorted(r)
    ensures forall y :: y in r <==>
      y in acc || exists k :: 0 <= k < |hrefs| && InShop(hrefs[k]) && Crawl.Slashed(hrefs[k].value) == y
    decreases |hrefs|
  {
    if |hrefs| == 0 then acc
    else
      var acc' := if InShop(hrefs[0]) then Insert(Crawl.Slashed(hrefs[0].value), acc) else acc;
      var r := Collect(hrefs[1..], acc');
      assert forall k :: 1 <= k < |hrefs| ==> hrefs[k] == hrefs[1..][k - 1];
      r
  }

  /** A strictly sorted list is fixed by its members: so the result is
      exactly `sorted` of the collected set, whatever the link order. */
  lemma {:induction false} SortedUnique(a: seq<string>, b: seq<string>)
    requires StrictlySorted(a) && StrictlySorted(b)
    requires forall y :: y in a <==> y in b
    ensures a == b
    decreases |a|
  {
    SameMembersBothEmpty(a, b);
    if |a| > 0 {
      assert a[0] == b[0] by {
        if a[0] != b[0] {
          assert a[0] in b && b[0] in a;
          var k :| 0 <= k < |b| && b[k] == a[0];
          var m :| 0 <= m < |a| && a[m] == b[0];
          Text.LexLessAsymmetric(b[0], a[0]);
        }
      }
      forall y
        ensures y in a[1..] ==> y in b[1..]
        ensures y in b[1..] ==> y in a[1..]
      {
        if y in a[1..] {
          TailMember(a, b, y);
        }
        if y in b[1..] {
          TailMember(b, a, y);
        }
      }
      SortedUnique(a[1..], b[1..]);
      assert a == [a[0]] + a[1..] && b == [b[0]] + b[1..];
    }
  }

  lemma SameMembersBothEmpty(a: seq<string>, b: seq<string>)
    requires forall y :: y in a <==> y in b
    ensures |a| == 0 <==> |b| == 0
  {
    if |a| > 0 {
      assert a[0] in b;
    }
    if |b| > 0 {
      assert b[0] in a;
    }
  }

  lemma TailMember(a: seq<string>, b: seq<string>, y: string)
    requires StrictlySorted(a) && StrictlySorted(b) && |a| > 0 && |b| > 0 && a[0] == b[0]
    requires forall x :: x in a <==> x in b
    requires y in a[1..]
    ensures y in b[1..]
  {
    var i :| 0 <= i < |a[1..]| && a[1..][i] == y;
    assert a[i + 1] == y && Text.LexLess(a[0], y);
    Text.LexLessIrreflexive(y);
    assert y in b;
    var j :| 0 <= j < |b| && b[j] == y;
    assert j != 0 && b[1..][j - 1] == y;
  }

  /** Reordering or repeating the menu links does not change the list. */
  lemma CategoriesIgnoreLinkOrder(menuAppeared: bool, hrefs: seq<Option<string>>, others: seq<Option<string>>)
    requires forall h :: h in hrefs <==> h in others
    ensures MainCategories(menuAppeared, hrefs) == MainCategories(menuAppeared, others)
  {
    var a, b := MainCategories(menuAppeared, hrefs), MainCategories(menuAppeared, others);
    if menuAppeared {
      forall y
        ensures y in a <==> y in b
      {
        if y in a {
          var k :| 0 <= k < |hrefs| && InShop(hrefs[k]) && Crawl.Slashed(hrefs[k].value) == y;
          assert hrefs[k] in others;
          var m :| 0 <= m < |others| && others[m] == hrefs[k];
        }
        if y in b {
          var k :| 0 <= k < |others| && InShop(others[k]) && Crawl.Slashed(others[k].value) == y;
          assert others[k] in hrefs;
          var m :| 0 <= m < |hrefs| && hrefs[m] == others[k];
        }
      }
      SortedUnique(a, b);
    }
  }

  /** `get_main_categories`: no categories when the menu never appeared. */
  function MainCategories(menuAppeared: bool, hrefs: seq<Option<string>>): (r: seq<string>)
    ensures StrictlySorted(r)
    ensures !menuAppeared ==> r == []
    ensures menuAppeared ==> forall y :: y in r <==>
      exists k :: 0 <= k < |hrefs| && InShop(hrefs[k]) && Crawl.Slashed(hrefs[k].value) == y
  {
    if menuAppeared then Collect(hrefs, []) else []
  }

  /** Every category is a shop URL ending with `/`. */
  lemma CategoriesAreShopDirectories(menuAppeared: bool, hrefs: seq<Option<string>>)
    ensures forall y :: y in MainCategories(menuAppeared, hrefs) ==>
      Text.StartsWith(y, ShopRoot) && Text.EndsWith(y, "/")
  {
    forall y | y in MainCategories(menuAppeared, hrefs)
      ensures Text.StartsWith(y, ShopRoot) && Text.EndsWith(y, "/")
    {
      var k :| 0 <= k < |hrefs| && InShop(hrefs[k]) && Crawl.Slashed(hrefs[k].value) == y;
      SlashedKeepsPrefix(hrefs[k].value, ShopRoot);
    }
  }

  lemma SlashedKeepsPrefix(s: string, prefix: string)
    requires Text.StartsWith(s, prefix)
    ensures Text.StartsWith(Crawl.Slashed(s), prefix)
  {
    var r := Crawl.Slashed(s);
    assert r[..|prefix|] == s[..|prefix|];
  }

  /** A link with and without its trailing `/` names one category, and a
      category is its own slashed form. */
  lemma SlashedMerges(s: string)
    ensures !Text.EndsWith(s, "/") ==> Crawl.Slashed(s + "/") == Crawl.Slashed(s)
    ensures Crawl.Slashed(Crawl.Slashed(s)) == Crawl.Slashed(s)
  {
    var t := s + "/";
    assert t[|t| - 1..] == "/";
  }

  /** Each category is listed once. */
  lemma CategoriesDistinct(menuAppeared: bool, hrefs: seq<Option<string>>)
    ensures var r := MainCategories(menuAppeared, hrefs);
            forall i, j :: 0 <= i < j < |r| ==> r[i] != r[j]
  {
    var r := MainCategories(menuAppeared, hrefs);
    forall i, j | 0 <= i < j < |r|
      ensures r[i] != r[j]
    {
      Text.LexLessIrreflexive(r[i]);
    }
  }
}

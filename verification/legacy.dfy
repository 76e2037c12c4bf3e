/** The word-combination matcher of the older `search_emag_best` (both
    definitions in `scrapers.py`, and its copy in `test/emag_test.py`): a
    title's match count is the largest `r` such that some `r`-combination of
    the query's words all occur in the lowercased title, and the card with the
    strictly largest count (and a usable price and link) wins. */
module Legacy {
  import opened Wrappers
  import Text
  import Decimal
  import Similarity
  import Selection
  import Search

  /** `product_name.lower().split()`. */
  function Words(query: string): seq<string> {
    Text.Runs(Text.Lower(query), Text.NotSpace)
  }

  function Prefixed(x: string, cs: seq<seq<string>>): (r: seq<seq<string>>)
    ensures |r| == |cs|
    ensures forall k :: 0 <= k < |cs| ==> r[k] == [x] + cs[k]
  {
    seq(|cs|, (k: int) requires 0 <= k < |cs| => [x] + cs[k])
  }

  /** `list(itertools.combinations(s, r))`, in the same order. */
  function Combinations(s: seq<string>, r: nat): (cs: seq<seq<string>>)
    ensures forall k :: 0 <= k < |cs| ==> |cs[k]| == r
    ensures forall k :: 0 <= k < |cs| ==> forall j :: 0 <= j < r ==> cs[k][j] in s
    decreases |s|
  {
    if r == 0 then [[]]
    else if |s| == 0 then []
    else
      var rest := s[1..];
      assert forall w :: w in rest ==> w in s;
      Prefixed(s[0], Combinations(rest, r - 1)) + Combinations(rest, r)
  }

  /** `all(word in title_lower for word in combo)`. */
  predicate AllIn(combo: seq<string>, title: string) {
    forall j :: 0 <= j < |combo| ==> Text.Contains(title, combo[j])
  }

  /** Some combination in `cs` has all its words in the title. */
  function AnyAllIn(cs: seq<seq<string>>, title: string): (b: bool)
    ensures b <==> exists k :: 0 <= k < |cs| && AllIn(cs[k], title)
  {
    if |cs| == 0 then false
    else
      var rest := AnyAllIn(cs[1..], title);
      assert forall k :: 1 <= k < |cs| ==> cs[k] == cs[1..][k - 1];
      AllIn(cs[0], title) || rest
  }

  /** The `for r in range(r, 0, -1)` search of the match count. */
  function CountFrom(words: seq<string>, title: string, r: nat): nat
  {
    if r == 0 then 0
    else if AnyAllIn(Combinations(words, r), title) then r
    else CountFrom(words, title, r - 1)
  }

  /** `match_count` of a lowercased title. */
  function MatchCount(words: seq<string>, title: string): (n: nat)
  {
    CountFrom(words, title, |words|)
  }

  /** How many query words (with repetition) are substrings of the title. */
  function Hits(words: seq<string>, title: string): (n: nat)
    ensures n <= |words|
  {
    if |words| == 0 then 0
    else (if Text.Contains(title, words[0]) then 1 else 0) + Hits(words[1..], title)
  }

  /** The query words that are substrings of the title, in order. */
  function Present(words: seq<string>, title: string): (ws: seq<string>)
    ensures |ws| == Hits(words, title)
    ensures AllIn(ws, title)
  {
    if |words| == 0 then []
    else if Text.Contains(title, words[0]) then [words[0]] + Present(words[1..], title)
    else Present(words[1..], title)
  }

  /** No combination of more words than are present can have all of them in
      the title. */
  lemma {:induction false} CombinationBound(words: seq<string>, title: string, r: nat, k: int)
    requires 0 <= k < |Combinations(words, r)| && AllIn(Combinations(words, r)[k], title)
    ensures r <= Hits(words, title)
    decreases |words|
  {
    if r > 0 {
      var rest := words[1..];
      var front := Prefixed(words[0], Combinations(rest, r - 1));
      var cs := Combinations(words, r);
      assert cs == front + Combinations(rest, r);
      if k < |front| {
        var c := Combinations(rest, r - 1)[k];
        assert cs[k] == [words[0]] + c;
        assert Text.Contains(title, cs[k][0]);
        assert AllIn(c, title) by {
          forall j | 0 <= j < |c|
            ensures Text.Contains(title, c[j])
          {
            assert c[j] == cs[k][j + 1];
          }
        }
        CombinationBound(rest, title, r - 1, k);
      } else {
        assert cs[k] == Combinations(rest, r)[k - |front|];
        CombinationBound(rest, title, r, k - |front|);
      }
    }
  }

  /** The present words form one of the combinations of their own size. */
  lemma {:induction false} PresentIsCombination(words: seq<string>, title: string)
    ensures Present(words, title) in Combinations(words, Hits(words, title))
    decreases |words|
  {
    if |words| > 0 && Hits(words, title) > 0 {
      PresentIsCombination(words[1..], title);
      if Text.Contains(title, words[0]) {
        PresentWithFirst(words, title);
      } else {
        PresentWithoutFirst(words, title);
      }
    }
  }

  lemma PresentWithFirst(words: seq<string>, title: string)
    requires |words| > 0 && Text.Contains(title, words[0])
    requires Present(words[1..], title) in Combinations(words[1..], Hits(words[1..], title))
    ensures Present(words, title) in Combinations(words, Hits(words, title))
  {
    var rest, h := words[1..], Hits(words, title);
    assert Combinations(words, h) == Prefixed(words[0], Combinations(rest, h - 1)) + Combinations(rest, h);
    InPrefixed(words[0], Combinations(rest, h - 1), Present(rest, title));
  }

  lemma PresentWithoutFirst(words: seq<string>, title: string)
    requires |words| > 0 && !Text.Contains(title, words[0]) && Hits(words, title) > 0
    requires Present(words[1..], title) in Combinations(words[1..], Hits(words[1..], title))
    ensures Present(words, title) in Combinations(words, Hits(words, title))
  {
    var rest, h := words[1..], Hits(words, title);
    assert Combinations(words, h) == Prefixed(words[0], Combinations(rest, h - 1)) + Combinations(rest, h);
  }

  lemma InPrefixed(x: string, cs: seq<seq<string>>, c: seq<string>)
    requires c in cs
    ensures [x] + c in Prefixed(x, cs)
  {
    var k :| 0 <= k < |cs| && cs[k] == c;
    assert Prefixed(x, cs)[k] == [x] + c;
  }

  lemma {:induction false} CountFromHits(words: seq<string>, title: string, r: nat)
    requires Hits(words, title) <= r
    ensures CountFrom(words, title, r) == Hits(words, title)
    decreases r
  {
    var h := Hits(words, title);
    if r > h {
      if AnyAllIn(Combinations(words, r), title) {
        var k :| 0 <= k < |Combinations(words, r)| && AllIn(Combinations(words, r)[k], title);
        CombinationBound(words, title, r, k);
      }
      CountFromHits(words, title, r - 1);
    } else if r > 0 {
      PresentIsCombination(words, title);
      var cs := Combinations(words, r);
      var k :| 0 <= k < |cs| && cs[k] == Present(words, title);
    }
  }

  /** The match count is the number of query words found in the title. */
  lemma MatchCountIsHits(words: seq<string>, title: string)
    ensures MatchCount(words, title) == Hits(words, title)
    ensures MatchCount(words, title) <= |words|
  {
    CountFromHits(words, title, |words|);
  }

  /** A card of the BeautifulSoup definitions: the title text (`None` for a
      missing tag, read as ""), the price text (`None` for a missing tag) and
      the product anchor. */
  datatype Anchor = NoAnchor | Anchor(href: Option<string>)
  datatype Item = Item(title: Option<string>, priceText: Option<string>, anchor: Anchor)

  /** `price_tag.get_text(strip=True)` with "Lei" and no-break spaces removed
      and the decimal comma turned into a point. */
  function CleanPrice(text: string): string {
    Text.Replace(Text.Replace(Text.Replace(Text.Strip(text), "Lei", ""), [Search.Nbsp], ""), ",", ".")
  }

  function ParsePrice(text: Option<string>): Option<real> {
    match text
    case None => None
    case Some(t) => Decimal.ParseFloat(CleanPrice(t))
  }

  /** Count 0 skips the card; there is no early stop. */
  const ByCount := Selection.Policy(1.0, None, None)

  function TitleOf(it: Item): string {
    Text.Strip(it.title.GetOr(""))
  }

  function AssessItem(words: seq<string>, it: Item): Selection.Assessed {
    var t := TitleOf(it);
    Selection.Assessed(t, MatchCount(words, Text.Lower(t)) as real, ParsePrice(it.priceText),
                       if it.anchor.Anchor? then it.anchor.href else None)
  }

  function AssessItems(words: seq<string>, items: seq<Item>): (xs: seq<Option<Selection.Assessed>>)
    ensures |xs| == |items|
    ensures forall i :: 0 <= i < |items| ==> xs[i] == Some(AssessItem(words, items[i]))
  {
    seq(|items|, (i: int) requires 0 <= i < |items| => Some(AssessItem(words, items[i])))
  }

  /** `link_tag["href"]` on an anchor without `href` raises `KeyError`; the
      line is reached only for cards with a non-zero count. */
  predicate RaisesKeyError(words: seq<string>, it: Item) {
    MatchCount(words, Text.Lower(TitleOf(it))) > 0 && it.anchor == Anchor(None)
  }

  /** What the BeautifulSoup `search_emag_best` returns. */
  datatype Answer = KeyError | Answer(result: Option<Search.Found>)

  /** Some card raises before the loop ends. */
  function AnyRaises(words: seq<string>, items: seq<Item>): (b: bool)
    ensures b <==> exists i :: 0 <= i < |items| && RaisesKeyError(words, items[i])
  {
    if |items| == 0 then false
    else
      var rest := AnyRaises(words, items[1..]);
      assert forall i :: 1 <= i < |items| ==> items[i] == items[1..][i - 1];
      RaisesKeyError(words, items[0]) || rest
  }

  /** A scan with neither stop rule visits every candidate. */
  lemma ScansAll(xs: seq<Option<Selection.Assessed>>, p: Selection.Policy)
    requires p.confident.None? && p.cutoff.None?
    ensures Selection.Scanned(xs, p) == |xs|
  {
  }

  /** `search_emag_best` (scrapers.py, second definition; test/emag_test.py):
      the first card with the strictly largest non-zero count and a truthy
      price and link. */
  method BestByWordCount(query: string, items: seq<Item>) returns (a: Answer)
    ensures a.KeyError? <==> exists i :: 0 <= i < |items| && RaisesKeyError(Words(query), items[i])
    ensures a.Answer? ==>
              var xs := AssessItems(Words(query), items);
              && (a.result.None? <==> forall j :: 0 <= j < |xs| ==> !Selection.Eligible(xs, ByCount, j))
              && (a.result.Some? ==> exists k :: Selection.IsFirstMax(xs, ByCount, |xs|, k)
                                                 && a.result.value == Search.Found(Some(xs[k].value.title), xs[k].value.price, xs[k].value.link, None))
  {
    var words := Words(query);
    if AnyRaises(words, items) {
      return KeyError;
    }
    var xs := AssessItems(words, items);
    ScansAll(xs, ByCount);
    var best, scanned := Selection.Choose(xs, ByCount);
    if best.None? {
      return Answer(None);
    }
    var w := xs[best.value].value;
    return Answer(Some(Search.Found(Some(w.title), w.price, w.link, None)));
  }

  /** The shadowed Selenium definition at the top of `scrapers.py` runs the
      same rule on Altex cards, whose price text loses "lei" instead; a card
      whose title element is missing is skipped. */
  function AssessCard(words: seq<string>, c: Search.Card): Option<Selection.Assessed> {
    match c.title
    case None => None
    case Some(raw) =>
      var t := Text.Strip(raw);
      Some(Selection.Assessed(t, MatchCount(words, Text.Lower(t)) as real,
                              Search.ParsePrice(Search.Altex, c.priceText), c.link))
  }

  function AssessCards(words: seq<string>, cards: seq<Search.Card>): (xs: seq<Option<Selection.Assessed>>)
    ensures |xs| == |cards|
    ensures forall i :: 0 <= i < |cards| ==> xs[i] == AssessCard(words, cards[i])
  {
    seq(|cards|, (i: int) requires 0 <= i < |cards| => AssessCard(words, cards[i]))
  }

  /** The first (Selenium) definition of `search_emag_best`. */
  method ShadowedBestByWordCount(query: string, cards: seq<Search.Card>) returns (result: Option<Search.Found>)
    ensures var xs := AssessCards(Words(query), cards);
            && (result.None? <==> forall j :: 0 <= j < |xs| ==> !Selection.Eligible(xs, ByCount, j))
            && (result.Some? ==> exists k :: Selection.IsFirstMax(xs, ByCount, |xs|, k)
                                             && result.value == Search.Found(Some(xs[k].value.title), xs[k].value.price, xs[k].value.link, None))
  {
    var xs := AssessCards(Words(query), cards);
    ScansAll(xs, ByCount);
    var best, scanned := Selection.Choose(xs, ByCount);
    if best.None? {
      return None;
    }
    var w := xs[best.value].value;
    return Some(Search.Found(Some(w.title), w.price, w.link, None));
  }

  /** A card counts only if some query word occurs in its title; an empty
      query matches nothing. */
  lemma WinnerHasAWord(query: string, items: seq<Item>, k: int)
    requires Selection.IsFirstMax(AssessItems(Words(query), items), ByCount, |items|, k)
    ensures exists j :: 0 <= j < |Words(query)| && Text.Contains(Text.Lower(TitleOf(items[k])), Words(query)[j])
  {
    var words := Words(query);
    var t := Text.Lower(TitleOf(items[k]));
    MatchCountIsHits(words, t);
    HitsWitness(words, t);
  }

  lemma {:induction false} HitsWitness(words: seq<string>, title: string)
    requires Hits(words, title) > 0
    ensures exists j :: 0 <= j < |words| && Text.Contains(title, words[j])
    decreases |words|
  {
    if !Text.Contains(title, words[0]) {
      HitsWitness(words[1..], title);
      var j :| 0 <= j < |words[1..]| && Text.Contains(title, words[1..][j]);
      assert words[j + 1] == words[1..][j];
    }
  }

  /** A price printed as digits, a no-break space and "Lei" reads back. */
  lemma WholePriceRoundTrip(n: nat)
    ensures ParsePrice(Some(Text.NatToString(n) + [Search.Nbsp] + "Lei")) == Some(n as real)
  {
    var d := Text.NatToString(n);
    var spaced := d + [Search.Nbsp];
    var text := spaced + "Lei";
    Text.StripTrimmed(text);
    Text.ReplaceSkipsPrefix(spaced, "Lei", "Lei", "");
    Text.ReplaceWhole("Lei");
    assert spaced + "" == spaced;
    Text.ReplaceSkipsPrefix(d, [Search.Nbsp], [Search.Nbsp], "");
    Text.ReplaceWhole([Search.Nbsp]);
    assert d + "" == d;
    Text.ReplaceAbsent(d, ",", ".");
    assert CleanPrice(text) == d;
    Decimal.ParseNatString(n);
  }
}

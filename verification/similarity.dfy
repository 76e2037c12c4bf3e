/** The similarity scorer of `scrapers/utils.py`: the fuzzy base score, word
    tokens, query-token coverage, the digit-run mismatch penalty and the
    precise score that combines them. */
module Similarity {
  import Text

  /** A rapidfuzz ratio, called as `ratio(query, title)`. Its implementation
      is a library outside the model, so it is a parameter. */
  type Metric = (string, string) -> real

  /** The two ratios `_match_score` combines. */
  datatype Metrics = Metrics(tokenSet: Metric, partial: Metric)

  /** rapidfuzz ratios lie in [0, 100]. */
  ghost predicate Bounded(m: Metrics) {
    forall q, t :: 0.0 <= m.tokenSet(q, t) <= 100.0 && 0.0 <= m.partial(q, t) <= 100.0
  }

  /** `_match_score`: the larger of the two ratios on the lowercased texts. */
  function MatchScore(m: Metrics, title: string, query: string): (r: real)
    ensures r >= m.tokenSet(Text.Lower(query), Text.Lower(title))
    ensures r >= m.partial(Text.Lower(query), Text.Lower(title))
    ensures r == m.tokenSet(Text.Lower(query), Text.Lower(title))
         || r == m.partial(Text.Lower(query), Text.Lower(title))
    ensures Bounded(m) ==> 0.0 <= r <= 100.0
  {
    var t, q := Text.Lower(title), Text.Lower(query);
    var a, b := m.tokenSet(q, t), m.partial(q, t);
    if a >= b then a else b
  }

  const StopWords: set<string> :=
    {"si", "sau", "de", "la", "cu", "in", "pe", "pentru", "the", "and", "with"}

  /** The list comprehension dropping stop words: every other word is kept,
      as often as it occurs. */
  function DropStopWords(ws: seq<string>): (r: seq<string>)
    ensures forall w :: w in r <==> w in ws && w !in StopWords
  {
    if |ws| == 0 then []
    else (if ws[0] in StopWords then [] else [ws[0]]) + DropStopWords(ws[1..])
  }

  /** ... as often as it occurs in the input. */
  lemma {:induction false} DropStopWordsCounts(ws: seq<string>, w: string)
    ensures multiset(DropStopWords(ws))[w] == if w in StopWords then 0 else multiset(ws)[w]
    decreases |ws|
  {
    if |ws| > 0 {
      assert ws == [ws[0]] + ws[1..];
      DropStopWordsCounts(ws[1..], w);
    }
  }

  /** ... and in the order of the input: the comprehension works word by word. */
  lemma {:induction false} DropStopWordsAppend(a: seq<string>, b: seq<string>)
    ensures DropStopWords(a + b) == DropStopWords(a) + DropStopWords(b)
    decreases |a|
  {
    if |a| == 0 {
      assert a + b == b;
    } else {
      var h := if a[0] in StopWords then [] else [a[0]];
      var ab := a + b;
      assert ab[0] == a[0] && ab[1..] == a[1..] + b;
      DropStopWordsAppend(a[1..], b);
      calc {
        DropStopWords(ab);
        h + DropStopWords(a[1..] + b);
        h + (DropStopWords(a[1..]) + DropStopWords(b));
        (h + DropStopWords(a[1..])) + DropStopWords(b);
      }
    }
  }

  /** `_tokenize_words`: maximal runs of word characters of the lowercased
      text, stop words removed. */
  function Tokens(s: string): (r: seq<string>)
    ensures forall w :: w in r ==> |w| > 0 && w !in StopWords && Text.IsLowered(w)
    ensures forall w :: w in r ==> forall j :: 0 <= j < |w| ==> Text.IsWordChar(w[j])
    ensures forall w :: w in r <==> w in Text.Runs(Text.Lower(s), Text.IsWordChar) && w !in StopWords
  {
    var runs := Text.Runs(Text.Lower(s), Text.IsWordChar);
    Text.RunsLowered(Text.Lower(s), Text.IsWordChar);
    assert forall w :: w in runs ==>
      |w| > 0 && Text.IsLowered(w) && forall j :: 0 <= j < |w| ==> Text.IsWordChar(w[j]);
    DropStopWords(runs)
  }

  /** Each token occurs as often as the word occurs among the runs. */
  lemma TokensCounts(s: string, w: string)
    ensures multiset(Tokens(s))[w] ==
      if w in StopWords then 0 else multiset(Text.Runs(Text.Lower(s), Text.IsWordChar))[w]
  {
    DropStopWordsCounts(Text.Runs(Text.Lower(s), Text.IsWordChar), w);
  }

  /** A single word of word characters that is not a stop word is its own
      token list, once lowered. */
  lemma TokensOfWord(w: string)
    requires |w| > 0 && Text.IsLowered(w) && w !in StopWords
    requires forall j :: 0 <= j < |w| ==> Text.IsWordChar(w[j])
    ensures Tokens(w) == [w]
  {
    Text.LowerOfLowered(w);
    Text.RunsWord(w, "", Text.IsWordChar);
    assert w + "" == w;
    assert Text.Runs("", Text.IsWordChar) == [];
    assert Text.Runs(Text.Lower(w), Text.IsWordChar) == [w];
    assert [w][1..] == [];
    assert DropStopWords([w]) == [w] + DropStopWords([]);
    assert DropStopWords([w]) == [w];
  }

  /** Tokens keep the order of the text: text on either side of a gap of
      non-word characters is tokenised on its own, left part first. */
  lemma TokensAcrossGap(a: string, g: string, b: string)
    requires |g| > 0 && forall i :: 0 <= i < |g| ==> !Text.IsWordChar(g[i])
    ensures Tokens(a + g + b) == Tokens(a) + Tokens(b)
  {
    Text.LowerAppend(a + g, b);
    Text.LowerAppend(a, g);
    var la, lg, lb := Text.Lower(a), Text.Lower(g), Text.Lower(b);
    assert Text.Lower(a + g + b) == la + lg + lb;
    Text.RunsAcrossGap(la, lg, lb, Text.IsWordChar);
    DropStopWordsAppend(Text.Runs(la, Text.IsWordChar), Text.Runs(lb, Text.IsWordChar));
  }

  /** How many entries of `ws` (counted with repetition) lie in `vocabulary`. */
  function Hits(ws: seq<string>, vocabulary: set<string>): (n: nat)
    ensures n <= |ws|
    ensures n == |ws| <==> forall k :: 0 <= k < |ws| ==> ws[k] in vocabulary
    ensures n == 0 <==> forall k :: 0 <= k < |ws| ==> ws[k] !in vocabulary
  {
    if |ws| == 0 then 0
    else
      var rest := Hits(ws[1..], vocabulary);
      assert forall k :: 1 <= k < |ws| ==> ws[k] == ws[1..][k - 1];
      (if ws[0] in vocabulary then 1 else 0) + rest
  }

  /** The share `Hits(ws, vocabulary) / |ws|`, 0 for no words. */
  function Share(ws: seq<string>, vocabulary: set<string>): (r: real)
    ensures 0.0 <= r <= 1.0
    ensures |ws| == 0 ==> r == 0.0
    ensures |ws| > 0 ==> r == Hits(ws, vocabulary) as real / |ws| as real
    ensures |ws| > 0 ==> (r == 1.0 <==> forall k :: 0 <= k < |ws| ==> ws[k] in vocabulary)
    ensures |ws| > 0 ==> (r == 0.0 <==> forall k :: 0 <= k < |ws| ==> ws[k] !in vocabulary)
  {
    if |ws| == 0 then 0.0
    else
      var h, n := Hits(ws, vocabulary) as real, |ws| as real;
      RatioBounds(h, n);
      h / n
  }

  lemma RatioBounds(h: real, n: real)
    requires 0.0 <= h <= n && n > 0.0
    ensures 0.0 <= h / n <= 1.0
    ensures h / n == 1.0 <==> h == n
    ensures h / n == 0.0 <==> h == 0.0
  {
    var q := h / n;
    assert q * n == h;
  }

  /** The distinct words of `ws`. */
  function Vocabulary(ws: seq<string>): (v: set<string>)
    ensures forall w :: w in v <==> w in ws
  {
    set w | w in ws
  }

  /** `_token_coverage`: the share of the query's tokens (with repetition)
      that occur among the title's tokens; 0 for a query without tokens. */
  function Coverage(title: string, query: string): (r: real)
    ensures 0.0 <= r <= 1.0
    ensures var qs, ts := Tokens(query), Tokens(title);
            && (|qs| == 0 ==> r == 0.0)
            && (|qs| > 0 ==> r == Hits(qs, Vocabulary(ts)) as real / |qs| as real)
            && (|qs| > 0 ==> (r == 1.0 <==> forall k :: 0 <= k < |qs| ==> qs[k] in ts))
            && (|qs| > 0 ==> (r == 0.0 <==> forall k :: 0 <= k < |qs| ==> qs[k] !in ts))
  {
    Share(Tokens(query), Vocabulary(Tokens(title)))
  }

  /** `set(re.findall(r"\d+", s))`. */
  function DigitRuns(s: string): set<string>
  {
    set w | w in Text.Runs(s, Text.IsDigit)
  }

  /** Some digit run of the query is absent from the title. */
  predicate MissingRun(title: string, query: string) {
    exists n :: n in DigitRuns(query) && n !in DigitRuns(title)
  }

  /** Some digit run of the title, absent from the query, has at most two digits. */
  predicate ShortExtraRun(title: string, query: string) {
    exists n :: n in DigitRuns(title) && n !in DigitRuns(query) && |n| <= 2
  }

  /** Some digit run of the title, absent from the query, has four digits. */
  predicate YearExtraRun(title: string, query: string) {
    exists n :: n in DigitRuns(title) && n !in DigitRuns(query) && |n| == 4
  }

  /** `_numeric_mismatch_penalty`. */
  function Penalty(title: string, query: string): (r: int)
    ensures r == (if MissingRun(title, query) then 25 else 0)
               + (if ShortExtraRun(title, query) then 15 else 0)
               + (if YearExtraRun(title, query) then 5 else 0)
  {
    var q, t := DigitRuns(query), DigitRuns(title);
    var p1 := if q != {} && !(q <= t) then 25 else 0;
    assert p1 == 25 <==> MissingRun(title, query);
    var extra := t - q;
    if extra != {} then
      var small := set n | n in extra && |n| <= 2;
      var yearLike := set n | n in extra && |n| == 4;
      assert small != {} <==> ShortExtraRun(title, query) by {
        if ShortExtraRun(title, query) {
          var n :| n in t && n !in q && |n| <= 2;
          assert n in small;
        }
      }
      assert yearLike != {} <==> YearExtraRun(title, query) by {
        if YearExtraRun(title, query) {
          var n :| n in t && n !in q && |n| == 4;
          assert n in yearLike;
        }
      }
      p1 + (if small != {} then 15 else 0) + (if yearLike != {} then 5 else 0)
    else
      assert forall n :: n in t && n !in q ==> n in extra;
      p1
  }

  /** Each of the three penalties applies at most once, so the total is one
      of eight values; equal digit-run sets cost nothing. */
  lemma PenaltyValues(title: string, query: string)
    ensures Penalty(title, query) in {0, 5, 15, 20, 25, 30, 40, 45}
    ensures DigitRuns(title) == DigitRuns(query) ==> Penalty(title, query) == 0
  {
  }

  /** `base * (0.5 + 0.5 * cov) - pen`. */
  function Blend(base: real, cov: real, pen: int): real {
    base * (0.5 + 0.5 * cov) - pen as real
  }

  /** `_precise_match_score`. */
  function PreciseScore(m: Metrics, title: string, query: string): real
  {
    Blend(MatchScore(m, title, query), Coverage(title, query), Penalty(title, query))
  }

  lemma BlendBounds(base: real, cov: real, pen: int)
    requires base >= 0.0 && 0.0 <= cov <= 1.0
    ensures base / 2.0 - pen as real <= Blend(base, cov, pen) <= base - pen as real
  {
    assert base * (0.5 + 0.5 * cov) == base / 2.0 + (base / 2.0) * cov;
    assert 0.0 <= (base / 2.0) * cov <= base / 2.0;
  }

  /** Coverage scales the base score into [base/2, base] before the penalty. */
  lemma PreciseScoreBounds(m: Metrics, title: string, query: string)
    ensures var base, pen := MatchScore(m, title, query), Penalty(title, query) as real;
            base >= 0.0 ==> base / 2.0 - pen <= PreciseScore(m, title, query) <= base - pen
    ensures Bounded(m) ==> -45.0 <= PreciseScore(m, title, query) <= 100.0
  {
    var base, cov := MatchScore(m, title, query), Coverage(title, query);
    var pen := Penalty(title, query);
    PenaltyValues(title, query);
    assert 0 <= pen <= 45;
    if base >= 0.0 {
      BlendBounds(base, cov, pen);
    }
  }

  /** Full coverage and no digit mismatch leave the base score untouched. */
  lemma PerfectMatchKeepsBase(m: Metrics, title: string, query: string)
    requires Coverage(title, query) == 1.0
    requires DigitRuns(title) == DigitRuns(query)
    ensures PreciseScore(m, title, query) == MatchScore(m, title, query)
  {
    PenaltyValues(title, query);
  }
}

/** `parse_price` of the standalone crawlers. `vexio_crawler.py` and
    `altex_crawler.py` drop the currency words and keep only digits and points
    (after turning commas into points); `vexio_test.py` instead treats points
    and spaces as thousands separators and the comma as the decimal mark. */
module CrawlPrice {
  import opened Wrappers
  import Text
  import Decimal

  const Nbsp: char := '\U{A0}'

  /** Which crawler's cleaning: they differ only in the order the currency
      spellings are removed. */
  datatype Crawler = Vexio | Altex

  /** `ch.isdigit() or ch == "."`, with ASCII digits. */
  predicate IsPriceChar(c: char) {
    Text.IsDigit(c) || c == '.'
  }

  predicate IsPriceOrComma(c: char) {
    IsPriceChar(c) || c == ','
  }

  /** The text with the no-break spaces and the spellings "Lei", "LEI" and
      "lei" removed, in the crawler's order. */
  function Uncurrency(crawler: Crawler, text: string): string {
    var t := Text.Replace(text, [Nbsp], "");
    match crawler
    case Vexio => Text.Replace(Text.Replace(Text.Replace(t, "Lei", ""), "LEI", ""), "lei", "")
    case Altex => Text.Replace(Text.Replace(Text.Replace(t, "LEI", ""), "Lei", ""), "lei", "")
  }

  /** The `cleaned` string: commas to points, stripped, then only digits and
      points kept. */
  function Clean(crawler: Crawler, text: string): (r: string)
    ensures forall i :: 0 <= i < |r| ==> IsPriceChar(r[i])
  {
    Text.Filter(Text.Strip(Text.Replace(Uncurrency(crawler, text), ",", ".")), IsPriceChar)
  }

  /** `parse_price(text)`; `None` for empty text, an empty cleaned string or
      a failed conversion. */
  function ParsePrice(crawler: Crawler, text: string): (r: Option<real>)
    ensures text == "" ==> r == None
  {
    if text == "" then None
    else
      var c := Clean(crawler, text);
      if c == "" then None else Decimal.ParseFloat(c)
  }

  lemma {:induction false} MapCharAppend(a: string, b: string, x: char, y: char)
    ensures Text.MapChar(a + b, x, y) == Text.MapChar(a, x, y) + Text.MapChar(b, x, y)
    decreases |a|
  {
    if |a| > 0 {
      assert (a + b)[0] == a[0] && (a + b)[1..] == a[1..] + b;
      MapCharAppend(a[1..], b, x, y);
    } else {
      assert a + b == b;
    }
  }

  /** Mapping commas to points and then keeping digits and points is keeping
      digits, points and commas and then mapping. */
  lemma {:induction false} FilterMapComma(s: string)
    ensures Text.Filter(Text.MapChar(s, ',', '.'), IsPriceChar)
         == Text.MapChar(Text.Filter(s, IsPriceOrComma), ',', '.')
    decreases |s|
  {
    if |s| > 0 {
      var m := Text.MapChar(s, ',', '.');
      assert m[0] == (if s[0] == ',' then '.' else s[0]);
      assert m[1..] == Text.MapChar(s[1..], ',', '.');
      FilterMapComma(s[1..]);
      var head: string := if IsPriceOrComma(s[0]) then [s[0]] else [];
      MapCharAppend(head, Text.Filter(s[1..], IsPriceOrComma), ',', '.');
    }
  }

  /** The spellings a crawler erases before reading a price. */
  predicate IsErased(w: string) {
    w == [Nbsp] || w == "Lei" || w == "LEI" || w == "lei"
  }

  /** Erasing a currency spelling or a no-break space keeps every digit,
      point and comma. */
  lemma EraseKeeps(s: string, w: string)
    requires IsErased(w)
    ensures Text.Filter(Text.Replace(s, w, ""), IsPriceOrComma) == Text.Filter(s, IsPriceOrComma)
  {
    assert forall i :: 0 <= i < |w| ==> !IsPriceOrComma(w[i]);
    Text.FilterReplaceErase(s, w, IsPriceOrComma);
  }

  lemma EraseThreeKeeps(t: string, w1: string, w2: string, w3: string)
    requires IsErased(w1) && IsErased(w2) && IsErased(w3)
    ensures Text.Filter(Text.Replace(Text.Replace(Text.Replace(t, w1, ""), w2, ""), w3, ""), IsPriceOrComma)
         == Text.Filter(t, IsPriceOrComma)
  {
    var t1 := Text.Replace(t, w1, "");
    var t2 := Text.Replace(t1, w2, "");
    EraseKeeps(t, w1);
    EraseKeeps(t1, w2);
    EraseKeeps(t2, w3);
  }

  lemma UncurrencyKeeps(crawler: Crawler, text: string)
    ensures Text.Filter(Uncurrency(crawler, text), IsPriceOrComma) == Text.Filter(text, IsPriceOrComma)
  {
    var t := Text.Replace(text, [Nbsp], "");
    EraseKeeps(text, [Nbsp]);
    match crawler {
      case Vexio => EraseThreeKeeps(t, "Lei", "LEI", "lei");
      case Altex => EraseThreeKeeps(t, "LEI", "Lei", "lei");
    }
  }

  /** The cleaned string is exactly the digits, points and commas of the
      text, in order, with commas read as points; both crawlers agree. */
  lemma CleanIsSeparatorsAndDigits(crawler: Crawler, text: string)
    ensures Clean(crawler, text) == Text.MapChar(Text.Filter(text, IsPriceOrComma), ',', '.')
  {
    var u := Uncurrency(crawler, text);
    var m := Text.MapChar(u, ',', '.');
    CleanMapped(crawler, text);
    SpaceNotPrice();
    Text.FilterStrip(m, IsPriceChar);
    FilterMapComma(u);
    UncurrencyKeeps(crawler, text);
  }

  lemma CleanMapped(crawler: Crawler, text: string)
    ensures Clean(crawler, text)
         == Text.Filter(Text.Strip(Text.MapChar(Uncurrency(crawler, text), ',', '.')), IsPriceChar)
  {
    Text.ReplaceOneChar(Uncurrency(crawler, text), ',', '.');
  }

  /** No white space is a digit or a point, so stripping drops none. */
  lemma SpaceNotPrice()
    ensures forall c :: Text.IsSpace(c) ==> !IsPriceChar(c)
  {
  }

  /** A text without digits, points or commas has no price. */
  lemma NoDigitsNoPrice(crawler: Crawler, text: string)
    requires forall i :: 0 <= i < |text| ==> !IsPriceOrComma(text[i])
    ensures ParsePrice(crawler, text) == None
  {
    CleanIsSeparatorsAndDigits(crawler, text);
    Text.FilterNone(text, IsPriceOrComma);
  }

  /** More than one separator in all fails the conversion. */
  lemma TwoSeparatorsNoPrice(crawler: Crawler, text: string)
    requires Text.Count(text, '.') + Text.Count(text, ',') >= 2
    ensures ParsePrice(crawler, text) == None
  {
    CleanIsSeparatorsAndDigits(crawler, text);
    var f := Text.Filter(text, IsPriceOrComma);
    Text.CountFilter(text, IsPriceOrComma, '.');
    Text.CountFilter(text, IsPriceOrComma, ',');
    Text.CountMapChar(f, ',', '.');
    Decimal.TwoDotsRejected(Clean(crawler, text));
  }

  /** An amount of digits and points followed by text with none of them
      keeps exactly the amount. */
  lemma KeptAmount(num: string, tail: string)
    requires forall i :: 0 <= i < |num| ==> IsPriceChar(num[i])
    requires forall i :: 0 <= i < |tail| ==> !IsPriceOrComma(tail[i])
    ensures Text.Filter(num + tail, IsPriceOrComma) == num
  {
    Text.FilterAll(num, IsPriceOrComma);
    Text.FilterNone(tail, IsPriceOrComma);
    Text.FilterAppend(num, tail, IsPriceOrComma);
    assert num + "" == num;
  }

  /** ... and that amount is the cleaned string. */
  lemma CleanOfAmount(crawler: Crawler, num: string, tail: string)
    requires forall i :: 0 <= i < |num| ==> IsPriceChar(num[i])
    requires forall i :: 0 <= i < |tail| ==> !IsPriceOrComma(tail[i])
    ensures Clean(crawler, num + tail) == num
  {
    KeptAmount(num, tail);
    CleanIsSeparatorsAndDigits(crawler, num + tail);
    assert ',' !in num;
    Text.MapCharAbsent(num, ',', '.');
  }

  /** A whole amount followed by the currency reads back. */
  lemma WholeAmount(crawler: Crawler, n: nat)
    ensures ParsePrice(crawler, Text.NatToString(n) + " Lei") == Some(n as real)
  {
    var d := Text.NatToString(n);
    var tail := " Lei";
    assert forall i :: 0 <= i < |tail| ==> !IsPriceOrComma(tail[i]);
    CleanOfAmount(crawler, d, tail);
    Decimal.ParseNatString(n);
  }

  // ------------------------------------------- thousands-separator variant

  /** `vexio_test.py`'s cleaning up to the decimal mark: currency removed
      and stripped, then every space and point dropped. */
  function ThousandsDigits(text: string): string {
    var t := Text.Strip(Uncurrency(Vexio, text));
    Text.Replace(Text.Replace(t, " ", ""), ".", "")
  }

  /** ... then the comma read as the decimal point. */
  function ThousandsClean(text: string): string {
    Text.Replace(ThousandsDigits(text), ",", ".")
  }

  /** `parse_price` of `vexio_test.py`. */
  function ParseThousands(text: string): (r: Option<real>)
    ensures text == "" ==> r == None
  {
    if text == "" then None else Decimal.ParseFloat(ThousandsClean(text))
  }

  /** Erasing a currency spelling keeps the commas. */
  lemma EraseKeepsCommas(s: string, w: string)
    requires IsErased(w)
    ensures Text.Count(Text.Replace(s, w, ""), ',') == Text.Count(s, ',')
  {
    Text.CountReplace(s, w, "", ',');
  }

  lemma UncurrencyCommas(text: string)
    ensures Text.Count(Uncurrency(Vexio, text), ',') == Text.Count(text, ',')
  {
    var t0 := Text.Replace(text, [Nbsp], "");
    var t1 := Text.Replace(t0, "Lei", "");
    var t2 := Text.Replace(t1, "LEI", "");
    EraseKeepsCommas(text, [Nbsp]);
    EraseKeepsCommas(t0, "Lei");
    EraseKeepsCommas(t1, "LEI");
    EraseKeepsCommas(t2, "lei");
  }

  /** Before the comma is mapped, no space or point is left and every comma
      of the text is. */
  lemma ThousandsDigitsShape(text: string)
    ensures ' ' !in ThousandsDigits(text) && '.' !in ThousandsDigits(text)
    ensures Text.Count(ThousandsDigits(text), ',') == Text.Count(text, ',')
  {
    var t := Text.Strip(Uncurrency(Vexio, text));
    UncurrencyCommas(text);
    Decimal.CountStrip(Uncurrency(Vexio, text), ',');
    var v := Text.Replace(t, " ", "");
    Text.ReplaceErases(t, ' ');
    Text.CountReplace(t, " ", "", ',');
    var u := Text.Replace(v, ".", "");
    Text.ReplaceErases(v, '.');
    Text.CountReplace(v, ".", "", ',');
    Text.CountAbsent(v, ' ');
    Text.CountReplace(v, ".", "", ' ');
    Text.CountAbsent(u, ' ');
  }

  /** The cleaned string has no spaces, and its points are exactly the
      commas of the text. */
  lemma ThousandsCleanShape(text: string)
    ensures ' ' !in ThousandsClean(text)
    ensures Text.Count(ThousandsClean(text), '.') == Text.Count(text, ',')
  {
    var u := ThousandsDigits(text);
    ThousandsDigitsShape(text);
    Text.ReplaceOneChar(u, ',', '.');
    Text.CountAbsent(u, ' ');
    Text.CountAbsent(u, '.');
    Text.CountMapChar(u, ',', '.');
    MapCharKeepsOut(u, ',', '.', ' ');
  }

  /** Mapping one character to another adds no third one. */
  lemma {:induction false} MapCharKeepsOut(s: string, a: char, b: char, c: char)
    requires c !in s && c != b
    ensures c !in Text.MapChar(s, a, b)
    decreases |s|
  {
    if |s| > 0 {
      MapCharKeepsOut(s[1..], a, b, c);
    }
  }

  /** Two or more commas fail the conversion. */
  lemma ThousandsTwoCommas(text: string)
    requires Text.Count(text, ',') >= 2
    ensures ParseThousands(text) == None
  {
    ThousandsCleanShape(text);
    Decimal.TwoDotsRejected(ThousandsClean(text));
  }

  // ------------------------------------------------ the thousands point

  /** An amount of the form `a.bbb Lei`: digits, a thousands point, three
      digits, the currency. */
  function Thousands(a: string, b: string): string {
    a + "." + b + " Lei"
  }

  /** The amount part of `a.bbb Lei` is kept whole by the as-written
      cleaning: the point survives as a decimal point. */
  lemma ThousandsCleanedAsWritten(a: string, b: string)
    requires |a| > 0 && Decimal.AllDigits(a) && |b| == 3 && Decimal.AllDigits(b)
    ensures Clean(Vexio, Thousands(a, b)) == a + "." + b
  {
    var num := a + "." + b;
    var tail := " Lei";
    assert Thousands(a, b) == num + tail;
    PointedPriceChars(a, b);
    assert forall i :: 0 <= i < |tail| ==> !IsPriceOrComma(tail[i]);
    CleanOfAmount(Vexio, num, tail);
  }

  lemma PointedPriceChars(a: string, b: string)
    requires Decimal.AllDigits(a) && Decimal.AllDigits(b)
    ensures forall i :: 0 <= i < |a + "." + b| ==> IsPriceChar((a + "." + b)[i])
  {
    var num := a + "." + b;
    forall i | 0 <= i < |num|
      ensures IsPriceChar(num[i])
    {
      if i < |a| {
        assert num[i] == a[i];
      } else if i > |a| {
        assert num[i] == b[i - |a| - 1];
      }
    }
  }

  /** As written, `a.bbb Lei` reads as the decimal `a.bbb`: `a` plus `bbb`
      thousandths. */
  lemma ThousandsAsWritten(a: string, b: string)
    requires |a| > 0 && Decimal.AllDigits(a) && |b| == 3 && Decimal.AllDigits(b)
    ensures ParsePrice(Vexio, Thousands(a, b))
            == Some(Decimal.PointValue(a, b))
  {
    ThousandsCleanedAsWritten(a, b);
    Decimal.ParsePointed(a, b);
  }

  /** Taking the currency off `a.bbb Lei` leaves `a.bbb `. */
  lemma ThousandsUncurrency(a: string, b: string)
    requires |a| > 0 && Decimal.AllDigits(a) && |b| == 3 && Decimal.AllDigits(b)
    ensures Uncurrency(Vexio, Thousands(a, b)) == a + "." + b + " "
  {
    var text := Thousands(a, b);
    var spaced := a + "." + b + " ";
    PointedPriceChars(a, b);
    assert forall i :: 0 <= i < |spaced| ==> spaced[i] != Nbsp && spaced[i] != 'L' && spaced[i] != 'l';
    assert Nbsp !in text;
    Text.ReplaceAbsent(text, [Nbsp], "");
    assert text == spaced + "Lei";
    Text.ReplaceSkipsPrefix(spaced, "Lei", "Lei", "");
    Text.ReplaceWhole("Lei");
    assert spaced + "" == spaced;
    Text.ReplaceAbsent(spaced, "LEI", "");
    Text.ReplaceAbsent(spaced, "lei", "");
  }

  /** Dropping the thousands point of `a.bbb` leaves `abbb`. */
  lemma DropPoint(a: string, b: string)
    requires Decimal.AllDigits(a) && Decimal.AllDigits(b)
    ensures Text.Replace(a + "." + b, ".", "") == a + b
  {
    Decimal.DigitsHaveNoMarks(a);
    Decimal.DigitsHaveNoMarks(b);
    assert a + "." + b == a + ("." + b);
    Text.ReplaceSkipsPrefix(a, "." + b, ".", "");
    Text.ReplaceLeading(".", b, "");
    Text.ReplaceAbsent(b, ".", "");
    assert "" + b == b;
  }

  /** The `vexio_test.py` cleaning takes `a.bbb Lei` to the digits `abbb`. */
  lemma ThousandsDigitsRead(a: string, b: string)
    requires |a| > 0 && Decimal.AllDigits(a) && |b| == 3 && Decimal.AllDigits(b)
    ensures ThousandsDigits(Thousands(a, b)) == a + b
  {
    var num := a + "." + b;
    ThousandsUncurrency(a, b);
    assert num[0] == a[0] && num[|num| - 1] == b[2];
    Text.StripTrailingSpace(num);
    PointedPriceChars(a, b);
    assert ' ' !in num;
    Text.ReplaceAbsent(num, " ", "");
    DropPoint(a, b);
  }

  lemma ThousandsCleanedRead(a: string, b: string)
    requires |a| > 0 && Decimal.AllDigits(a) && |b| == 3 && Decimal.AllDigits(b)
    ensures ThousandsClean(Thousands(a, b)) == a + b
  {
    ThousandsDigitsRead(a, b);
    Decimal.AllDigitsAppend(a, b);
    Decimal.DigitsHaveNoMarks(a + b);
    Text.ReplaceAbsent(a + b, ",", ".");
  }

  /** `vexio_test.py` reads `a.bbb Lei` as the digits `abbb`... */
  lemma ThousandsParsed(a: string, b: string)
    requires |a| > 0 && Decimal.AllDigits(a) && |b| == 3 && Decimal.AllDigits(b)
    ensures Decimal.AllDigits(a + b)
    ensures ParseThousands(Thousands(a, b)) == Some(Decimal.DigitsValue(a + b) as real)
  {
    var t := Thousands(a, b);
    assert |t| > 0;
    ThousandsCleanedRead(a, b);
    Decimal.AllDigitsAppend(a, b);
    Decimal.ParseDigits(a + b);
  }

  /** ... that is, as the whole amount `a` thousands plus `bbb`. */
  lemma ThousandsRead(a: string, b: string)
    requires |a| > 0 && Decimal.AllDigits(a) && |b| == 3 && Decimal.AllDigits(b)
    ensures ParseThousands(Thousands(a, b))
            == Some((Decimal.DigitsValue(a) * 1000 + Decimal.DigitsValue(b)) as real)
  {
    ThousandsParsed(a, b);
    Decimal.ReadThousands(a, b, ParseThousands(Thousands(a, b)));
  }
}

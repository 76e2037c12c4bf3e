/** String helpers with the meaning of the Python built-ins the scraper uses:
    `str.isspace`, `str.lower`, `str.strip`, `str.replace`, `str.split()`,
    `re.findall`/`re.split` over one character class, `in` on strings,
    `str.startswith`/`str.endswith`, `str(int)` and `<` on strings.
    The classes `\w` and `\d` are read as ASCII. */
module Text {

  /** The characters `str.isspace()` accepts; `str.split()` and `str.strip()`
      with no argument split and strip on exactly these. */
  predicate IsSpace(c: char) {
    || c == ' ' || c == '\t' || c == '\n' || c == '\r' || c == '\U{B}' || c == '\U{C}'
    || ('\U{1C}' <= c <= '\U{1F}') || c == '\U{85}' || c == '\U{A0}' || c == '\U{1680}'
    || ('\U{2000}' <= c <= '\U{200A}') || c == '\U{2028}' || c == '\U{2029}'
    || c == '\U{202F}' || c == '\U{205F}' || c == '\U{3000}'
  }

  predicate NotSpace(c: char) {
    !IsSpace(c)
  }

  /** The regex class `\d`, read as ASCII. */
  predicate IsDigit(c: char) {
    '0' <= c <= '9'
  }

  /** The regex class `\w`, read as ASCII. */
  predicate IsWordChar(c: char) {
    ('a' <= c <= 'z') || ('A' <= c <= 'Z') || IsDigit(c) || c == '_'
  }

  /** The capital letters `str.lower()` maps to a single other letter,
      among the ASCII letters, the Latin-1 letters (`À`-`Þ` but `×`, which
      holds `Â` and `Î`) and the other capitals of Romanian: `Ă`, the
      comma-below `Ș` and `Ț`, and the cedilla `Ş` and `Ţ` still found in
      older text. */
  predicate IsUpper(c: char) {
    || ('A' <= c <= 'Z')
    || ('\U{C0}' <= c <= '\U{DE}' && c != '\U{D7}')
    || c == '\U{102}' || c == '\U{15E}' || c == '\U{162}' || c == '\U{218}' || c == '\U{21A}'
  }

  /** `c.lower()` for one character: ASCII and Latin-1 capitals are 32 code
      points below their small letters, the other Romanian capitals one. */
  function LowerChar(c: char): (d: char)
    ensures !IsUpper(d)
    ensures !IsUpper(c) ==> d == c
    ensures IsUpper(c) ==> d != c
    ensures IsWordChar(d) <==> IsWordChar(c)
  {
    if 'A' <= c <= 'Z' || ('\U{C0}' <= c <= '\U{DE}' && c != '\U{D7}') then (c as int + 32) as char
    else if IsUpper(c) then (c as int + 1) as char
    else c
  }

  /** `str.lower()` over the letters `LowerChar` knows. */
  function Lower(s: string): (r: string)
    ensures |r| == |s|
    ensures forall i :: 0 <= i < |s| ==> r[i] == LowerChar(s[i])
  {
    if |s| == 0 then [] else [LowerChar(s[0])] + Lower(s[1..])
  }

  lemma LowerAppend(a: string, b: string)
    ensures Lower(a + b) == Lower(a) + Lower(b)
  {
    assert forall i :: 0 <= i < |a + b| ==> Lower(a + b)[i] == (Lower(a) + Lower(b))[i];
  }

  lemma LowerIdempotent(s: string)
    ensures Lower(Lower(s)) == Lower(s)
  {
    assert forall i :: 0 <= i < |s| ==> Lower(Lower(s))[i] == Lower(s)[i];
  }

  /** Whitespace has no case. */
  lemma LowerOfSpaces(g: string)
    requires forall i :: 0 <= i < |g| ==> IsSpace(g[i])
    ensures Lower(g) == g
  {
    assert forall i :: 0 <= i < |g| ==> Lower(g)[i] == g[i];
  }

  predicate IsLowered(s: string) {
    forall i :: 0 <= i < |s| ==> !IsUpper(s[i])
  }

  lemma LowerOfLowered(s: string)
    requires IsLowered(s)
    ensures Lower(s) == s
  {
  }

  // ---------------------------------------------------------------- strip

  function TrimStart(s: string): (r: string)
    ensures |r| <= |s| && r == s[|s| - |r|..]
    ensures |r| > 0 ==> !IsSpace(r[0])
    ensures forall i :: 0 <= i < |s| - |r| ==> IsSpace(s[i])
  {
    if |s| > 0 && IsSpace(s[0]) then TrimStart(s[1..]) else s
  }

  function TrimEnd(s: string): (r: string)
    ensures |r| <= |s| && r == s[..|r|]
    ensures |r| > 0 ==> !IsSpace(r[|r| - 1])
    ensures forall i :: |r| <= i < |s| ==> IsSpace(s[i])
  {
    if |s| > 0 && IsSpace(s[|s| - 1]) then TrimEnd(s[..|s| - 1]) else s
  }

  /** `str.strip()`. */
  function Strip(s: string): (r: string)
    ensures |r| > 0 ==> !IsSpace(r[0]) && !IsSpace(r[|r| - 1])
  {
    TrimEnd(TrimStart(s))
  }

  lemma StripIdempotent(s: string)
    ensures Strip(Strip(s)) == Strip(s)
  {
    var r := Strip(s);
    assert TrimStart(r) == r;
  }

  lemma StripUnspaced(s: string)
    requires forall i :: 0 <= i < |s| ==> !IsSpace(s[i])
    ensures Strip(s) == s
  {
    assert TrimStart(s) == s;
  }

  /** Text whose first and last characters are not whitespace is its own
      strip. */
  lemma StripTrimmed(s: string)
    requires |s| > 0 ==> !IsSpace(s[0]) && !IsSpace(s[|s| - 1])
    ensures Strip(s) == s
  {
    assert TrimStart(s) == s;
  }

  /** One trailing space goes; text with non-space ends is kept. */
  lemma StripTrailingSpace(s: string)
    requires |s| > 0 && !IsSpace(s[0]) && !IsSpace(s[|s| - 1])
    ensures Strip(s + " ") == s
  {
    var t := s + " ";
    assert TrimStart(t) == t;
    assert t[..|t| - 1] == s;
    assert TrimEnd(t) == TrimEnd(s);
    StripTrimmed(s);
  }

  // -------------------------------------------------------------- replace

  /** `s.replace(pat, rep)`: every leftmost non-overlapping occurrence. */
  function Replace(s: string, pat: string, rep: string): (r: string)
    requires |pat| > 0
    decreases |s|
  {
    if |s| < |pat| then s
    else if s[..|pat|] == pat then rep + Replace(s[|pat|..], pat, rep)
    else [s[0]] + Replace(s[1..], pat, rep)
  }

  /** `s.replace(a, b)` for one-character `a` and `b`. */
  function MapChar(s: string, a: char, b: char): (r: string)
    ensures |r| == |s|
  {
    if |s| == 0 then [] else [if s[0] == a then b else s[0]] + MapChar(s[1..], a, b)
  }

  lemma {:induction false} ReplaceOneChar(s: string, a: char, b: char)
    ensures Replace(s, [a], [b]) == MapChar(s, a, b)
    decreases |s|
  {
    if |s| > 0 {
      ReplaceOneChar(s[1..], a, b);
      assert s[1..] == s[|[a]|..];
    }
  }

  /** A prefix that does not hold the pattern's first character is copied
      through unchanged. */
  lemma {:induction false} ReplaceSkipsPrefix(a: string, b: string, pat: string, rep: string)
    requires |pat| > 0 && pat[0] !in a
    ensures Replace(a + b, pat, rep) == a + Replace(b, pat, rep)
    decreases |a|
  {
    if |a| == 0 {
      assert a + b == b;
    } else {
      var s := a + b;
      if |s| < |pat| {
        assert Replace(b, pat, rep) == b;
      } else {
        assert s[..|pat|][0] == a[0];
        assert Replace(s, pat, rep) == [a[0]] + Replace(s[1..], pat, rep);
        assert s[1..] == a[1..] + b;
        ReplaceSkipsPrefix(a[1..], b, pat, rep);
        assert a == [a[0]] + a[1..];
      }
    }
  }

  /** A leading occurrence of the pattern is replaced. */
  lemma ReplaceLeading(pat: string, rest: string, rep: string)
    requires |pat| > 0
    ensures Replace(pat + rest, pat, rep) == rep + Replace(rest, pat, rep)
  {
    var s := pat + rest;
    assert s[..|pat|] == pat && s[|pat|..] == rest;
  }

  lemma ReplaceWhole(w: string)
    requires |w| > 0
    ensures Replace(w, w, "") == ""
  {
    assert w[..|w|] == w && w[|w|..] == "";
  }

  /** Text without the pattern's first character is left as it is. */
  lemma ReplaceAbsent(s: string, pat: string, rep: string)
    requires |pat| > 0 && pat[0] !in s
    ensures Replace(s, pat, rep) == s
  {
    ReplaceSkipsPrefix(s, "", pat, rep);
    assert s + "" == s;
  }

  /** Replacing a pattern by text that both lack `c` keeps the count of `c`. */
  lemma {:induction false} CountReplace(s: string, pat: string, rep: string, c: char)
    requires |pat| > 0 && c !in pat && c !in rep
    ensures Count(Replace(s, pat, rep), c) == Count(s, c)
    decreases |s|
  {
    if |s| < |pat| {
    } else if s[..|pat|] == pat {
      var rest := s[|pat|..];
      CountReplace(rest, pat, rep, c);
      CountAppend(rep, Replace(rest, pat, rep), c);
      CountAbsent(rep, c);
      assert s == pat + rest;
      CountAppend(pat, rest, c);
      CountAbsent(pat, c);
    } else {
      CountReplace(s[1..], pat, rep, c);
      CountAppend([s[0]], Replace(s[1..], pat, rep), c);
    }
  }

  /** Mapping `a` to `b` adds the `a`s to the `b`s. */
  lemma {:induction false} CountMapChar(s: string, a: char, b: char)
    requires a != b
    ensures Count(MapChar(s, a, b), b) == Count(s, b) + Count(s, a)
    decreases |s|
  {
    if |s| > 0 {
      CountMapChar(s[1..], a, b);
    }
  }

  lemma {:induction false} MapCharAbsent(s: string, a: char, b: char)
    requires a !in s
    ensures MapChar(s, a, b) == s
    decreases |s|
  {
    if |s| > 0 {
      MapCharAbsent(s[1..], a, b);
      assert s == [s[0]] + s[1..];
    }
  }

  /** Characters kept, in order: `"".join(ch for ch in s if p(ch))`. */
  function Filter(s: string, p: char -> bool): (r: string)
    ensures |r| <= |s|
    ensures forall i :: 0 <= i < |r| ==> p(r[i])
  {
    if |s| == 0 then [] else (if p(s[0]) then [s[0]] else []) + Filter(s[1..], p)
  }

  lemma {:induction false} FilterAppend(a: string, b: string, p: char -> bool)
    ensures Filter(a + b, p) == Filter(a, p) + Filter(b, p)
    decreases |a|
  {
    if |a| > 0 {
      assert (a + b)[1..] == a[1..] + b;
      FilterAppend(a[1..], b, p);
    } else {
      assert a + b == b;
    }
  }

  /** Erasing a word none of whose characters `p` keeps does not change what
      `p` keeps. */
  lemma {:induction false} FilterReplaceErase(s: string, w: string, p: char -> bool)
    requires |w| > 0
    requires forall i :: 0 <= i < |w| ==> !p(w[i])
    ensures Filter(Replace(s, w, ""), p) == Filter(s, p)
    decreases |s|
  {
    if |s| < |w| {
    } else if s[..|w|] == w {
      var rest := s[|w|..];
      FilterReplaceErase(rest, w, p);
      assert Replace(s, w, "") == "" + Replace(rest, w, "") == Replace(rest, w, "");
      assert s == w + rest;
      FilterSkipped(w, rest, p);
    } else {
      var rest := s[1..];
      FilterReplaceErase(rest, w, p);
      FilterCons(s[0], Replace(rest, w, ""), p);
      FilterCons(s[0], rest, p);
      assert s == [s[0]] + rest;
    }
  }

  lemma FilterCons(c: char, s: string, p: char -> bool)
    ensures Filter([c] + s, p) == (if p(c) then [c] else []) + Filter(s, p)
  {
    assert ([c] + s)[0] == c && ([c] + s)[1..] == s;
  }

  lemma {:induction false} FilterNone(s: string, p: char -> bool)
    requires forall i :: 0 <= i < |s| ==> !p(s[i])
    ensures Filter(s, p) == []
    decreases |s|
  {
    if |s| > 0 {
      FilterNone(s[1..], p);
    }
  }

  /** Stripping whitespace that `p` rejects does not change what `p` keeps. */
  lemma FilterStrip(s: string, p: char -> bool)
    requires forall c :: IsSpace(c) ==> !p(c)
    ensures Filter(Strip(s), p) == Filter(s, p)
  {
    FilterTrimStart(s, p);
    FilterTrimEnd(TrimStart(s), p);
  }

  lemma FilterTrimStart(s: string, p: char -> bool)
    requires forall c :: IsSpace(c) ==> !p(c)
    ensures Filter(TrimStart(s), p) == Filter(s, p)
  {
    var a := TrimStart(s);
    var pre := s[..|s| - |a|];
    forall i | 0 <= i < |pre|
      ensures !p(pre[i])
    {
      assert pre[i] == s[i] && IsSpace(s[i]);
    }
    FilterSkipped(pre, a, p);
    assert s == pre + a;
  }

  lemma FilterTrimEnd(s: string, p: char -> bool)
    requires forall c :: IsSpace(c) ==> !p(c)
    ensures Filter(TrimEnd(s), p) == Filter(s, p)
  {
    var b := TrimEnd(s);
    var post := s[|b|..];
    forall i | 0 <= i < |post|
      ensures !p(post[i])
    {
      assert post[i] == s[|b| + i] && IsSpace(s[|b| + i]);
    }
    FilterSkipped(post, b, p);
    assert s == b + post;
  }

  /** Characters `p` rejects add nothing on either side. */
  lemma FilterSkipped(skipped: string, s: string, p: char -> bool)
    requires forall i :: 0 <= i < |skipped| ==> !p(skipped[i])
    ensures Filter(skipped + s, p) == Filter(s, p)
    ensures Filter(s + skipped, p) == Filter(s, p)
  {
    FilterNone(skipped, p);
    FilterAppend(skipped, s, p);
    FilterAppend(s, skipped, p);
    assert [] + Filter(s, p) == Filter(s, p);
    assert Filter(s, p) + [] == Filter(s, p);
  }

  lemma {:induction false} FilterAll(s: string, p: char -> bool)
    requires forall i :: 0 <= i < |s| ==> p(s[i])
    ensures Filter(s, p) == s
    decreases |s|
  {
    if |s| > 0 {
      FilterAll(s[1..], p);
      assert s == [s[0]] + s[1..];
    }
  }

  // ---------------------------------------------------------------- count

  /** `s.count(c)`. */
  function Count(s: string, c: char): nat
  {
    if |s| == 0 then 0 else (if s[0] == c then 1 else 0) + Count(s[1..], c)
  }

  lemma {:induction false} CountAppend(a: string, b: string, c: char)
    ensures Count(a + b, c) == Count(a, c) + Count(b, c)
    decreases |a|
  {
    if |a| > 0 {
      assert (a + b)[0] == a[0] && (a + b)[1..] == a[1..] + b;
      CountAppend(a[1..], b, c);
    } else {
      assert a + b == b;
    }
  }

  lemma {:induction false} CountAbsent(s: string, c: char)
    ensures c !in s <==> Count(s, c) == 0
    decreases |s|
  {
    if |s| > 0 {
      CountAbsent(s[1..], c);
      assert s == [s[0]] + s[1..];
    }
  }

  /** Filtering keeps every occurrence of a character it accepts. */
  lemma {:induction false} CountFilter(s: string, p: char -> bool, c: char)
    requires p(c)
    ensures Count(Filter(s, p), c) == Count(s, c)
    decreases |s|
  {
    if |s| > 0 {
      CountFilter(s[1..], p, c);
      CountAppend(if p(s[0]) then [s[0]] else [], Filter(s[1..], p), c);
    }
  }

  /** After erasing a character, it no longer occurs. */
  lemma {:induction false} ReplaceErases(s: string, c: char)
    ensures c !in Replace(s, [c], "")
    decreases |s|
  {
    if |s| > 0 {
      ReplaceErases(s[1..], c);
      if s[..1] == [c] {
        assert s[|[c]|..] == s[1..];
      } else {
        assert s[0] != c;
      }
    }
  }

  // --------------------------------------------------------- runs / split

  /** Length of the longest prefix of `s` made of characters `p` accepts. */
  function RunLength(s: string, p: char -> bool): (n: nat)
    ensures n <= |s|
    ensures forall i :: 0 <= i < n ==> p(s[i])
    ensures n < |s| ==> !p(s[n])
  {
    if |s| == 0 || !p(s[0]) then 0 else 1 + RunLength(s[1..], p)
  }

  /** The maximal non-empty runs of characters `p` accepts, left to right:
      `re.findall(r"\d+", s)` for `IsDigit`, `s.split()` for `NotSpace`, and
      `[t for t in re.split(r"[^\w]+", s) if t]` for `IsWordChar`. */
  function Runs(s: string, p: char -> bool): (r: seq<string>)
    ensures forall k :: 0 <= k < |r| ==> |r[k]| > 0
    ensures forall k :: 0 <= k < |r| ==> forall j :: 0 <= j < |r[k]| ==> p(r[k][j])
    decreases |s|
  {
    if |s| == 0 then []
    else if !p(s[0]) then Runs(s[1..], p)
    else
      var n := RunLength(s, p);
      [s[..n]] + Runs(s[n..], p)
  }

  lemma {:induction false} RunLengthPrefix(a: string, b: string, p: char -> bool)
    requires forall i :: 0 <= i < |a| ==> p(a[i])
    ensures RunLength(a + b, p) == |a| + RunLength(b, p)
    decreases |a|
  {
    if |a| > 0 {
      assert (a + b)[0] == a[0] && (a + b)[1..] == a[1..] + b;
      RunLengthPrefix(a[1..], b, p);
    } else {
      assert a + b == b;
    }
  }

  /** A rejected character in front does not start a run. */
  lemma RunsSkip(c: char, t: string, p: char -> bool)
    requires !p(c)
    ensures Runs([c] + t, p) == Runs(t, p)
  {
    assert ([c] + t)[1..] == t;
  }

  /** An accepted word ended by a rejected character (or the end) is one run. */
  lemma RunsWord(w: string, t: string, p: char -> bool)
    requires |w| > 0 && forall j :: 0 <= j < |w| ==> p(w[j])
    requires |t| == 0 || !p(t[0])
    ensures Runs(w + t, p) == [w] + Runs(t, p)
  {
    RunLengthPrefix(w, t, p);
    assert RunLength(t, p) == 0;
    assert (w + t)[0] == w[0];
    assert (w + t)[..|w|] == w && (w + t)[|w|..] == t;
  }

  /** Rejected characters in front start no run. */
  lemma {:induction false} RunsOfBlanks(g: string, t: string, p: char -> bool)
    requires forall i :: 0 <= i < |g| ==> !p(g[i])
    ensures Runs(g + t, p) == Runs(t, p)
    decreases |g|
  {
    if |g| > 0 {
      RunsOfBlanks(g[1..], t, p);
      RunsSkip(g[0], g[1..] + t, p);
      assert g + t == [g[0]] + (g[1..] + t);
    } else {
      assert g + t == t;
    }
  }

  /** A non-empty gap of rejected characters separates the runs on either
      side: none of them is glued across it. */
  lemma {:induction false} RunsAcrossGap(a: string, g: string, b: string, p: char -> bool)
    requires |g| > 0 && forall i :: 0 <= i < |g| ==> !p(g[i])
    ensures Runs(a + g + b, p) == Runs(a, p) + Runs(b, p)
    decreases |a|
  {
    if |a| == 0 {
      assert a + g + b == g + b;
      RunsOfBlanks(g, b, p);
    } else if !p(a[0]) {
      RunsAcrossGap(a[1..], g, b, p);
      GapAfterRejected(a, g, b, p);
    } else {
      var n := RunLength(a, p);
      if n == |a| {
        GapAfterLastWord(a, g, b, p);
      } else {
        RunsAcrossGap(a[n..], g, b, p);
        GapAfterWord(a[..n], a[n..], g, b, p);
        assert a[..n] + a[n..] == a;
      }
    }
  }

  lemma GapAfterRejected(a: string, g: string, b: string, p: char -> bool)
    requires |a| > 0 && !p(a[0])
    requires Runs(a[1..] + g + b, p) == Runs(a[1..], p) + Runs(b, p)
    ensures Runs(a + g + b, p) == Runs(a, p) + Runs(b, p)
  {
    RunsSkip(a[0], a[1..] + g + b, p);
    RunsSkip(a[0], a[1..], p);
    assert a + g + b == [a[0]] + (a[1..] + g + b);
    assert a == [a[0]] + a[1..];
  }

  lemma GapAfterLastWord(a: string, g: string, b: string, p: char -> bool)
    requires |a| > 0 && forall j :: 0 <= j < |a| ==> p(a[j])
    requires |g| > 0 && forall i :: 0 <= i < |g| ==> !p(g[i])
    ensures Runs(a + g + b, p) == Runs(a, p) + Runs(b, p)
  {
    var t := g + b;
    assert Runs(a + t, p) == [a] + Runs(b, p) by {
      assert t[0] == g[0];
      RunsWord(a, t, p);
      RunsOfBlanks(g, b, p);
    }
    assert Runs(a, p) == [a] by {
      RunsWord(a, "", p);
      assert a + "" == a;
    }
    assert a + g + b == a + t;
  }

  lemma GapAfterWord(w: string, rest: string, g: string, b: string, p: char -> bool)
    requires |w| > 0 && forall j :: 0 <= j < |w| ==> p(w[j])
    requires |rest| > 0 && !p(rest[0])
    requires Runs(rest + g + b, p) == Runs(rest, p) + Runs(b, p)
    ensures Runs(w + rest + g + b, p) == Runs(w + rest, p) + Runs(b, p)
  {
    var t := rest + g + b;
    assert Runs(w + t, p) == [w] + Runs(t, p) by {
      assert t[0] == rest[0];
      RunsWord(w, t, p);
    }
    assert Runs(w + rest, p) == [w] + Runs(rest, p) by {
      RunsWord(w, rest, p);
    }
    assert w + rest + g + b == w + t;
  }

  /** Rejected characters at the end start no run. */
  lemma RunsBeforeBlanks(a: string, h: string, p: char -> bool)
    requires forall i :: 0 <= i < |h| ==> !p(h[i])
    ensures Runs(a + h, p) == Runs(a, p)
  {
    if |h| > 0 {
      RunsAcrossGap(a, h, "", p);
      assert a + h + "" == a + h;
    } else {
      assert a + h == a;
    }
  }

  lemma {:induction false} RunsLowered(s: string, p: char -> bool)
    requires IsLowered(s)
    ensures forall k :: 0 <= k < |Runs(s, p)| ==> IsLowered(Runs(s, p)[k])
    decreases |s|
  {
    if |s| > 0 {
      if !p(s[0]) {
        RunsLowered(s[1..], p);
      } else {
        var n := RunLength(s, p);
        RunsLowered(s[n..], p);
      }
    }
  }

  /** `sep.join(ws)`. */
  function Join(sep: string, ws: seq<string>): string
  {
    if |ws| == 0 then "" else if |ws| == 1 then ws[0] else ws[0] + sep + Join(sep, ws[1..])
  }

  lemma {:induction false} JoinLowered(sep: string, ws: seq<string>)
    requires IsLowered(sep)
    requires forall k :: 0 <= k < |ws| ==> IsLowered(ws[k])
    ensures IsLowered(Join(sep, ws))
  {
    if |ws| > 1 {
      JoinLowered(sep, ws[1..]);
    }
  }

  /** Words of characters `p` accepts, separated by single `sep`s: no
      rejected character at either end, every rejected character a `sep`,
      and never two in a row. */
  predicate SingleSeparated(s: string, p: char -> bool, sep: char) {
    && (|s| > 0 ==> p(s[0]) && p(s[|s| - 1]))
    && (forall i :: 0 <= i < |s| && !p(s[i]) ==> s[i] == sep)
    && (forall i :: 0 < i < |s| && !p(s[i]) ==> p(s[i - 1]))
  }

  /** The shape of `" ".join(s.split())`. */
  predicate SingleSpaced(s: string) {
    SingleSeparated(s, NotSpace, ' ')
  }

  /** Non-empty words of accepted characters, joined by a rejected `sep`,
      are single-separated. */
  lemma {:induction false} JoinSingleSeparated(ws: seq<string>, p: char -> bool, sep: char)
    requires !p(sep)
    requires forall k :: 0 <= k < |ws| ==> |ws[k]| > 0
    requires forall k :: 0 <= k < |ws| ==> forall j :: 0 <= j < |ws[k]| ==> p(ws[k][j])
    ensures SingleSeparated(Join([sep], ws), p, sep)
    ensures |ws| > 0 ==> |Join([sep], ws)| > 0
  {
    if |ws| == 1 {
      var w := ws[0];
      assert forall j :: 0 <= j < |w| ==> p(w[j]);
    } else if |ws| > 1 {
      var w, t := ws[0], Join([sep], ws[1..]);
      JoinSingleSeparated(ws[1..], p, sep);
      var s := w + [sep] + t;
      assert forall j :: 0 <= j < |w| ==> p(w[j]);
      forall i | 0 <= i < |s|
        ensures !p(s[i]) ==> s[i] == sep
        ensures 0 < i && !p(s[i]) ==> p(s[i - 1])
      {
        if i < |w| {
          assert s[i] == w[i];
        } else if i == |w| {
          assert s[i - 1] == w[|w| - 1];
        } else if i == |w| + 1 {
          assert s[i] == t[0];
        } else {
          assert s[i] == t[i - |w| - 1] && s[i - 1] == t[i - |w| - 2];
        }
      }
      assert s[0] == w[0] && s[|s| - 1] == t[|t| - 1];
    }
  }

  /** A single-separated text is the join of its words. */
  lemma {:induction false} RunsOfSingleSeparated(s: string, p: char -> bool, sep: char)
    requires !p(sep) && SingleSeparated(s, p, sep)
    ensures Join([sep], Runs(s, p)) == s
    decreases |s|
  {
    if |s| > 0 {
      var n := RunLength(s, p);
      if n == |s| {
        RunsOfOneWord(s, p, sep);
      } else {
        SeparatedSuffix(s, p, sep, n + 1);
        RunsOfSingleSeparated(s[n + 1..], p, sep);
        RunsOfWordThenRest(s[..n], s[n + 1..], p, sep);
        assert s == s[..n] + [sep] + s[n + 1..];
      }
    }
  }

  lemma RunsOfOneWord(s: string, p: char -> bool, sep: char)
    requires !p(sep) && |s| > 0 && RunLength(s, p) == |s|
    ensures Join([sep], Runs(s, p)) == s
  {
    RunsOfJoin([s], sep, p);
  }

  lemma RunsOfWordThenRest(w: string, rest: string, p: char -> bool, sep: char)
    requires !p(sep) && |w| > 0
    requires forall j :: 0 <= j < |w| ==> p(w[j])
    requires Join([sep], Runs(rest, p)) == rest && |rest| > 0
    ensures Join([sep], Runs(w + [sep] + rest, p)) == w + [sep] + rest
  {
    var rs := Runs(rest, p);
    JoinEmpty(sep, rs);
    RunsOfWordThenWords(w, rs, p, sep);
  }

  lemma JoinEmpty(sep: char, ws: seq<string>)
    ensures |ws| == 0 ==> Join([sep], ws) == ""
  {
  }

  lemma RunsOfWordThenWords(w: string, rs: seq<string>, p: char -> bool, sep: char)
    requires !p(sep) && |w| > 0 && |rs| > 0
    requires forall j :: 0 <= j < |w| ==> p(w[j])
    requires forall k :: 0 <= k < |rs| ==> |rs[k]| > 0
    requires forall k :: 0 <= k < |rs| ==> forall j :: 0 <= j < |rs[k]| ==> p(rs[k][j])
    ensures Runs(w + [sep] + Join([sep], rs), p) == [w] + rs
    ensures Join([sep], [w] + rs) == w + [sep] + Join([sep], rs)
  {
    ConsWords(w, rs, p);
    RunsOfJoin([w] + rs, sep, p);
    JoinCons(w, rs, sep);
  }

  lemma ConsWords(w: string, rs: seq<string>, p: char -> bool)
    requires |w| > 0 && forall j :: 0 <= j < |w| ==> p(w[j])
    requires forall k :: 0 <= k < |rs| ==> |rs[k]| > 0
    requires forall k :: 0 <= k < |rs| ==> forall j :: 0 <= j < |rs[k]| ==> p(rs[k][j])
    ensures forall k :: 0 <= k < |[w] + rs| ==> |([w] + rs)[k]| > 0
    ensures forall k :: 0 <= k < |[w] + rs| ==> forall j :: 0 <= j < |([w] + rs)[k]| ==> p(([w] + rs)[k][j])
  {
    var ws := [w] + rs;
    forall k | 0 <= k < |ws|
      ensures |ws[k]| > 0 && forall j :: 0 <= j < |ws[k]| ==> p(ws[k][j])
    {
      if k > 0 {
        assert ws[k] == rs[k - 1];
      }
    }
  }

  lemma SeparatedSuffix(s: string, p: char -> bool, sep: char, m: nat)
    requires SingleSeparated(s, p, sep) && 0 < m < |s| && p(s[m])
    ensures SingleSeparated(s[m..], p, sep)
  {
    var rest := s[m..];
    forall i | 0 <= i < |rest|
      ensures !p(rest[i]) ==> rest[i] == sep
      ensures 0 < i && !p(rest[i]) ==> p(rest[i - 1])
    {
      assert rest[i] == s[m + i];
      if i > 0 {
        assert rest[i - 1] == s[m + i - 1];
      }
    }
    assert rest[|rest| - 1] == s[|s| - 1];
  }

  lemma JoinCons(w: string, r: seq<string>, sep: char)
    requires |r| > 0
    ensures Join([sep], [w] + r) == w + [sep] + Join([sep], r)
  {
    assert ([w] + r)[1..] == r;
  }

  /** Splitting words glued with a separator the predicate rejects gives the
      words back. */
  lemma {:induction false} RunsOfJoin(ws: seq<string>, sep: char, p: char -> bool)
    requires !p(sep)
    requires forall k :: 0 <= k < |ws| ==> |ws[k]| > 0
    requires forall k :: 0 <= k < |ws| ==> forall j :: 0 <= j < |ws[k]| ==> p(ws[k][j])
    ensures Runs(Join([sep], ws), p) == ws
  {
    if |ws| == 1 {
      var w := ws[0];
      RunLengthPrefix(w, "", p);
      assert w + "" == w;
      assert w[|w|..] == "";
    } else if |ws| > 1 {
      var w, rest := ws[0], Join([sep], ws[1..]);
      var s := w + [sep] + rest;
      assert s == w + ([sep] + rest);
      RunLengthPrefix(w, [sep] + rest, p);
      assert RunLength(s, p) == |w|;
      assert s[..|w|] == w;
      assert s[|w|..] == [sep] + rest;
      assert ([sep] + rest)[1..] == rest;
      RunsOfJoin(ws[1..], sep, p);
      assert ws == [w] + ws[1..];
    }
  }

  // --------------------------------------------------- substring and affix

  /** `w in t` for strings: `w` starts at some position of `t`. */
  predicate Contains(t: string, w: string)
    decreases |t|
  {
    StartsWith(t, w) || (|t| > 0 && Contains(t[1..], w))
  }

  /** `s.startswith(prefix)`. */
  predicate StartsWith(s: string, prefix: string) {
    |prefix| <= |s| && s[..|prefix|] == prefix
  }

  /** `s.endswith(suffix)`. */
  predicate EndsWith(s: string, suffix: string) {
    |suffix| <= |s| && s[|s| - |suffix|..] == suffix
  }

  // ------------------------------------------------------------- numbers

  function DigitChar(d: nat): (c: char)
    requires d < 10
    ensures IsDigit(c)
  {
    ('0' as int + d) as char
  }

  /** `str(n)` for a natural number. */
  function NatToString(n: nat): (r: string)
    ensures |r| > 0
    ensures forall i :: 0 <= i < |r| ==> IsDigit(r[i])
  {
    if n < 10 then [DigitChar(n)] else NatToString(n / 10) + [DigitChar(n % 10)]
  }

  // ----------------------------------------------------------- ordering

  /** `a < b` on Python strings: code-point order, a proper prefix first. */
  predicate LexLess(a: string, b: string)
    decreases |a|
  {
    |b| > 0 && (|a| == 0 || a[0] < b[0] || (a[0] == b[0] && LexLess(a[1..], b[1..])))
  }

  lemma {:induction false} LexLessIrreflexive(a: string)
    ensures !LexLess(a, a)
    decreases |a|
  {
    if |a| > 0 {
      LexLessIrreflexive(a[1..]);
    }
  }

  lemma {:induction false} LexLessTransitive(a: string, b: string, c: string)
    requires LexLess(a, b) && LexLess(b, c)
    ensures LexLess(a, c)
    decreases |a|
  {
    if |a| > 0 && a[0] == b[0] && b[0] == c[0] {
      LexLessTransitive(a[1..], b[1..], c[1..]);
    }
  }

  lemma {:induction false} LexLessTotal(a: string, b: string)
    ensures a == b || LexLess(a, b) || LexLess(b, a)
    decreases |a|
  {
    if |a| > 0 && |b| > 0 && a[0] == b[0] {
      LexLessTotal(a[1..], b[1..]);
      if a[1..] == b[1..] {
        assert a == [a[0]] + a[1..] && b == [b[0]] + b[1..];
      }
    }
  }

  lemma LexLessAsymmetric(a: string, b: string)
    requires LexLess(a, b)
    ensures !LexLess(b, a)
  {
    if LexLess(b, a) {
      LexLessTransitive(a, b, a);
      LexLessIrreflexive(a);
    }
  }
}

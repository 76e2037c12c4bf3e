/** Python's `float(text)` restricted to decimal literals: optional surrounding
    whitespace, an optional sign, and digits with at most one decimal point and
    at least one digit. Values are exact reals, not IEEE doubles. */
module Decimal {
  import opened Wrappers
  import Text

  predicate AllDigits(s: string) {
    forall i :: 0 <= i < |s| ==> Text.IsDigit(s[i])
  }

  /** The value of a string of decimal digits (0 for the empty string). */
  function DigitsValue(s: string): nat
    requires AllDigits(s)
  {
    if |s| == 0 then 0 else DigitsValue(s[..|s| - 1]) * 10 + (s[|s| - 1] as int - '0' as int)
  }

  function Pow10(n: nat): (p: nat)
    ensures p >= 1
  {
    if n == 0 then 1 else 10 * Pow10(n - 1)
  }

  /** Position of the first occurrence of `c`, the way `str.find` reports it. */
  function IndexOf(s: string, c: char): (r: Option<nat>)
    ensures r.None? <==> c !in s
    ensures r.Some? ==> r.value < |s| && s[r.value] == c && c !in s[..r.value]
  {
    if |s| == 0 then None
    else if s[0] == c then Some(0)
    else
      match IndexOf(s[1..], c)
      case None => None
      case Some(k) =>
        assert s[..k + 1] == [s[0]] + s[1..][..k];
        Some(k + 1)
  }

  /** The value of the literal `whole.frac`. */
  function PointValue(whole: string, frac: string): (v: real)
    requires AllDigits(whole) && AllDigits(frac)
    ensures v >= 0.0
  {
    DigitsValue(whole) as real + DigitsValue(frac) as real / Pow10(|frac|) as real
  }

  /** An unsigned literal: `ddd`, `ddd.ddd`, `.ddd` or `ddd.`. */
  function UnsignedValue(s: string): (r: Option<real>)
    ensures r.Some? ==> r.value >= 0.0
  {
    match IndexOf(s, '.')
    case None =>
      if |s| > 0 && AllDigits(s) then Some(DigitsValue(s) as real) else None
    case Some(k) =>
      var whole, frac := s[..k], s[k + 1..];
      if AllDigits(whole) && AllDigits(frac) && |whole| + |frac| > 0 then
        Some(PointValue(whole, frac))
      else None
  }

  /** `float(text)`; `None` where Python raises `ValueError`. */
  function ParseFloat(text: string): (r: Option<real>)
  {
    var t := Text.Strip(text);
    if |t| > 0 && (t[0] == '+' || t[0] == '-') then
      match UnsignedValue(t[1..])
      case None => None
      case Some(v) => Some(if t[0] == '-' then -v else v)
    else UnsignedValue(t)
  }

  lemma {:induction false} DigitsOfNat(n: nat)
    ensures AllDigits(Text.NatToString(n)) && DigitsValue(Text.NatToString(n)) == n
  {
    var s := Text.NatToString(n);
    if n >= 10 {
      DigitsOfNat(n / 10);
      assert s[..|s| - 1] == Text.NatToString(n / 10);
    }
  }

  lemma AllDigitsAppend(a: string, b: string)
    requires AllDigits(a) && AllDigits(b)
    ensures AllDigits(a + b)
  {
    forall i | 0 <= i < |a + b|
      ensures Text.IsDigit((a + b)[i])
    {
      if i < |a| {
        assert (a + b)[i] == a[i];
      } else {
        assert (a + b)[i] == b[i - |a|];
      }
    }
  }

  /** Digits `a` followed by three digits `b` are worth `a` thousands plus
      `b`. */
  lemma DigitsThousands(a: string, b: string)
    requires AllDigits(a) && AllDigits(b) && |b| == 3
    ensures AllDigits(a + b)
    ensures DigitsValue(a + b) == DigitsValue(a) * 1000 + DigitsValue(b)
  {
    DigitsValueAppend(a, b);
    assert Pow10(1) == 10;
    assert Pow10(2) == 100;
    assert Pow10(3) == 1000;
  }

  /** The same, as a reading of the digits: whatever reads `a + b` reads
      `a` thousands plus `b`. */
  lemma ReadThousands(a: string, b: string, r: Option<real>)
    requires AllDigits(a) && AllDigits(b) && |b| == 3
    requires AllDigits(a + b) && r == Some(DigitsValue(a + b) as real)
    ensures r == Some((DigitsValue(a) * 1000 + DigitsValue(b)) as real)
  {
    DigitsThousands(a, b);
  }

  lemma {:induction false} DigitsValueAppend(a: string, b: string)
    requires AllDigits(a) && AllDigits(b)
    ensures AllDigits(a + b)
    ensures DigitsValue(a + b) == DigitsValue(a) * Pow10(|b|) + DigitsValue(b)
    decreases |b|
  {
    if |b| == 0 {
      assert a + b == a;
    } else {
      var b', d := b[..|b| - 1], b[|b| - 1] as int - '0' as int;
      DigitsValueAppend(a, b');
      assert DigitsValue(a + b) == DigitsValue(a + b') * 10 + d by {
        assert (a + b)[..|a + b| - 1] == a + b';
        assert (a + b)[|a + b| - 1] == b[|b| - 1];
      }
      ShiftDigit(DigitsValue(a), Pow10(|b'|), DigitsValue(b'), d);
    }
  }

  lemma ShiftDigit(x: int, p: int, v: int, d: int)
    ensures (x * p + v) * 10 + d == x * (p * 10) + (v * 10 + d)
  {
    assert (x * p) * 10 == x * (p * 10);
  }

  /** `float` of a non-empty digit string is its value. */
  lemma ParseDigits(s: string)
    requires |s| > 0 && AllDigits(s)
    ensures ParseFloat(s) == Some(DigitsValue(s) as real)
  {
    Text.StripUnspaced(s);
    assert !(s[0] == '+' || s[0] == '-');
    assert IndexOf(s, '.') == None;
  }

  /** The first point of `w.f`, with `w` all digits, follows `w`. */
  lemma PointAfterDigits(w: string, f: string)
    requires AllDigits(w)
    ensures IndexOf(w + "." + f, '.') == Some(|w|)
  {
    var s := w + "." + f;
    assert s[|w|] == '.';
    assert forall i :: 0 <= i < |w| ==> s[i] == w[i];
  }

  lemma UnsignedPointed(w: string, f: string)
    requires AllDigits(w) && AllDigits(f) && |w| > 0
    ensures UnsignedValue(w + "." + f) == Some(PointValue(w, f))
  {
    var s := w + "." + f;
    PointAfterDigits(w, f);
    var whole, frac := s[..|w|], s[|w| + 1..];
    assert whole == w;
    assert frac == f;
    assert AllDigits(whole) && AllDigits(frac) && |whole| + |frac| > 0;
    assert UnsignedValue(s) == Some(PointValue(whole, frac));
  }

  /** `float` of digits, a point and digits. */
  lemma PointedTrimmed(w: string, f: string)
    requires |w| > 0 && AllDigits(w) && AllDigits(f)
    ensures Text.Strip(w + "." + f) == w + "." + f
  {
    var s := w + "." + f;
    var last := s[|s| - 1];
    assert Text.IsDigit(s[0]);
    assert Text.IsDigit(last) || last == '.' by {
      if |f| > 0 {
        assert last == f[|f| - 1];
      }
    }
    Text.StripTrimmed(s);
  }

  lemma ParsePointed(w: string, f: string)
    requires |w| > 0 && AllDigits(w) && AllDigits(f)
    ensures ParseFloat(w + "." + f) == Some(PointValue(w, f))
  {
    var s := w + "." + f;
    PointedTrimmed(w, f);
    assert s[0] == w[0];
    UnsignedPointed(w, f);
    assert ParseFloat(s) == UnsignedValue(s);
  }

  /** `float(str(n))` gives `n` back. */
  lemma ParseNatString(n: nat)
    ensures ParseFloat(Text.NatToString(n)) == Some(n as real)
  {
    DigitsOfNat(n);
    ParseDigits(Text.NatToString(n));
  }

  lemma CountStrip(s: string, c: char)
    requires !Text.IsSpace(c)
    ensures Text.Count(Text.Strip(s), c) == Text.Count(s, c)
  {
    CountTrimStart(s, c);
    CountTrimEnd(Text.TrimStart(s), c);
  }

  lemma CountTrimStart(s: string, c: char)
    requires !Text.IsSpace(c)
    ensures Text.Count(Text.TrimStart(s), c) == Text.Count(s, c)
  {
    var a := Text.TrimStart(s);
    var front := s[..|s| - |a|];
    assert c !in front by {
      forall i | 0 <= i < |front|
        ensures front[i] != c
      {
        assert front[i] == s[i] && Text.IsSpace(s[i]);
      }
    }
    assert s == front + a;
    Text.CountAppend(front, a, c);
    Text.CountAbsent(front, c);
  }

  lemma CountTrimEnd(s: string, c: char)
    requires !Text.IsSpace(c)
    ensures Text.Count(Text.TrimEnd(s), c) == Text.Count(s, c)
  {
    var b := Text.TrimEnd(s);
    var back := s[|b|..];
    assert c !in back by {
      forall i | 0 <= i < |back|
        ensures back[i] != c
      {
        assert back[i] == s[|b| + i] && Text.IsSpace(s[|b| + i]);
      }
    }
    assert s == b + back;
    Text.CountAppend(b, back, c);
    Text.CountAbsent(back, c);
  }

  /** Text holding a point is not all digits. */
  lemma PointNotDigits(s: string)
    requires '.' in s
    ensures !AllDigits(s)
  {
    var j :| 0 <= j < |s| && s[j] == '.';
    assert !Text.IsDigit(s[j]);
  }

  /** Digits hold no point, comma or space. */
  lemma DigitsHaveNoMarks(s: string)
    requires AllDigits(s)
    ensures '.' !in s && ',' !in s && ' ' !in s
  {
  }

  /** Past the first point, one point fewer remains. */
  lemma {:induction false} CountPastFirst(s: string, k: nat)
    requires k < |s| && s[k] == '.' && '.' !in s[..k]
    ensures Text.Count(s[k + 1..], '.') == Text.Count(s, '.') - 1
  {
    var front, rest := s[..k], s[k + 1..];
    assert s == front + ([s[k]] + rest);
    Text.CountAppend(front, [s[k]] + rest, '.');
    Text.CountAppend([s[k]], rest, '.');
    Text.CountAbsent(front, '.');
  }

  lemma UnsignedTwoDots(s: string)
    requires Text.Count(s, '.') >= 2
    ensures UnsignedValue(s) == None
  {
    Text.CountAbsent(s, '.');
    var k := IndexOf(s, '.').value;
    CountPastFirst(s, k);
    var frac := s[k + 1..];
    Text.CountAbsent(frac, '.');
    PointNotDigits(frac);
  }

  /** Dropping a leading sign keeps the points. */
  lemma SignKeepsPoints(t: string)
    requires |t| > 0 && t[0] != '.'
    ensures Text.Count(t[1..], '.') == Text.Count(t, '.')
  {
  }

  /** A literal with two or more decimal points is rejected. */
  lemma TwoDotsRejected(text: string)
    requires Text.Count(text, '.') >= 2
    ensures ParseFloat(text) == None
  {
    var t := Text.Strip(text);
    CountStrip(text, '.');
    if |t| > 0 && (t[0] == '+' || t[0] == '-') {
      SignKeepsPoints(t);
      UnsignedTwoDots(t[1..]);
    } else {
      UnsignedTwoDots(t);
    }
  }
}

/**
 * The Python `str` operations the pipeline relies on, over `seq<char>`:
 * `isspace` (also the class `\s` matches in a `str` regex), `split()` with no
 * argument, `strip()`, `sep.join(...)`, `lower()`, the `in` substring test,
 * decimal rendering of integers and the `:.3f` rendering of a score.
 */
module Text {
  import opened Seqs

  /** Python's `c.isspace()`: the characters `\s` matches and `split()`/`strip()` remove. */
  const SpaceChars: set<char> := {
    ' ', '\t', '\n', '\U{0B}', '\U{0C}', '\r', '\U{1C}', '\U{1D}', '\U{1E}', '\U{1F}',
    '\U{85}', '\U{A0}', '\U{1680}',
    '\U{2000}', '\U{2001}', '\U{2002}', '\U{2003}', '\U{2004}', '\U{2005}',
    '\U{2006}', '\U{2007}', '\U{2008}', '\U{2009}', '\U{200A}',
    '\U{2028}', '\U{2029}', '\U{202F}', '\U{205F}', '\U{3000}'
  }

  predicate IsSpace(c: char) {
    c in SpaceChars
  }

  predicate IsDigit(c: char) {
    '0' <= c <= '9'
  }

  predicate AllSpace(s: string) {
    forall i :: 0 <= i < |s| ==> IsSpace(s[i])
  }

  predicate NoSpace(s: string) {
    forall i :: 0 <= i < |s| ==> !IsSpace(s[i])
  }

  // ---------------------------------------------------------------------------
  // str.split()

  /** Length of the run of non-whitespace characters that s begins with. */
  function WordEnd(s: string): (n: nat)
    ensures n <= |s|
    ensures forall i :: 0 <= i < n ==> !IsSpace(s[i])
    ensures n < |s| ==> IsSpace(s[n])
  {
    if s == [] || IsSpace(s[0]) then 0 else 1 + WordEnd(s[1..])
  }

  /** Python's `s.split()`: the maximal runs of non-whitespace characters of s, in order. */
  function Words(s: string): (ws: seq<string>)
    ensures forall k :: 0 <= k < |ws| ==> ws[k] != [] && NoSpace(ws[k])
    decreases |s|
  {
    if s == [] then []
    else if IsSpace(s[0]) then Words(s[1..])
    else
      var n := WordEnd(s);
      [s[..n]] + Words(s[n..])
  }

  /** Python's `len(s.split())`. */
  function WordCount(s: string): nat {
    |Words(s)|
  }

  /** A run of non-whitespace characters stops at the first whitespace character. */
  lemma {:induction false} WordEndAppend(a: string, b: string)
    requires b == [] || IsSpace(b[0])
    ensures WordEnd(a + b) == WordEnd(a)
  {
    if a == [] {
      assert a + b == b;
    } else if !IsSpace(a[0]) {
      assert (a + b)[1..] == a[1..] + b;
      WordEndAppend(a[1..], b);
    }
  }

  /** Cutting a string just before a whitespace character cuts its word list at the same place. */
  lemma {:induction false} WordsAppend(a: string, b: string)
    requires b == [] || IsSpace(b[0])
    ensures Words(a + b) == Words(a) + Words(b)
    decreases |a|
  {
    if a == [] {
      assert a + b == b;
    } else if IsSpace(a[0]) {
      CutConcat(a, b, 1);
      WordsAppend(a[1..], b);
      assert Words(a + b) == Words(a[1..] + b);
      assert Words(a) == Words(a[1..]);
    } else {
      var n := WordEnd(a);
      WordEndAppend(a, b);
      CutConcat(a, b, n);
      WordsAppend(a[n..], b);
      assert Words(a + b) == [a[..n]] + Words(a[n..] + b);
      assert Words(a) == [a[..n]] + Words(a[n..]);
      AppendAssoc([a[..n]], Words(a[n..]), Words(b));
    }
  }

  /** Leading whitespace contributes no words. */
  lemma {:induction false} WordsSkipSpace(w: string, b: string)
    requires AllSpace(w)
    ensures Words(w + b) == Words(b)
    decreases |w|
  {
    if w == [] {
      assert w + b == b;
    } else {
      assert (w + b)[1..] == w[1..] + b;
      WordsSkipSpace(w[1..], b);
    }
  }

  /** A string that `split()` finds no word in is entirely whitespace, and conversely. */
  lemma {:induction false} NoWordsIffAllSpace(s: string)
    ensures Words(s) == [] <==> AllSpace(s)
    decreases |s|
  {
    if s != [] && IsSpace(s[0]) {
      NoWordsIffAllSpace(s[1..]);
      if AllSpace(s[1..]) {
        assert forall i :: 0 < i < |s| ==> s[i] == s[1..][i - 1];
      }
    }
  }

  // ---------------------------------------------------------------------------
  // sep.join(parts)

  /** Python's `sep.join(parts)`. */
  function Join(parts: seq<string>, sep: string): string {
    if |parts| == 0 then []
    else if |parts| == 1 then parts[0]
    else Join(parts[..|parts| - 1], sep) + sep + parts[|parts| - 1]
  }

  /** The words of every part, in order. */
  function WordsOfAll(parts: seq<string>): seq<string> {
    if parts == [] then [] else WordsOfAll(parts[..|parts| - 1]) + Words(parts[|parts| - 1])
  }

  /** Sum of `len(p.split())` over the parts. */
  function TotalWords(parts: seq<string>): nat {
    if parts == [] then 0 else TotalWords(parts[..|parts| - 1]) + WordCount(parts[|parts| - 1])
  }

  lemma {:induction false} TotalWordsIsWordsOfAll(parts: seq<string>)
    ensures TotalWords(parts) == |WordsOfAll(parts)|
  {
    if parts != [] {
      TotalWordsIsWordsOfAll(parts[..|parts| - 1]);
    }
  }

  /** Joining with a space neither merges nor splits words: `' '.join(ps).split()` is the words of the parts. */
  lemma {:induction false} WordsOfSpaceJoin(parts: seq<string>)
    ensures Words(Join(parts, " ")) == WordsOfAll(parts)
    ensures WordCount(Join(parts, " ")) == TotalWords(parts)
  {
    if |parts| == 1 {
      assert parts[..0] == [];
    } else if |parts| > 1 {
      var init, last := parts[..|parts| - 1], parts[|parts| - 1];
      WordsOfSpaceJoin(init);
      assert Join(parts, " ") == Join(init, " ") + (" " + last);
      WordsAppend(Join(init, " "), " " + last);
      assert (" " + last)[1..] == last;
    }
    TotalWordsIsWordsOfAll(parts);
  }

  /** One more part adds its words to the total. */
  lemma TotalWordsSnoc(parts: seq<string>, s: string)
    ensures TotalWords(parts + [s]) == TotalWords(parts) + WordCount(s)
  {
    assert (parts + [s])[..|parts|] == parts;
  }

  /** Splitting the list of parts splits the word total. */
  lemma {:induction false} TotalWordsAppend(a: seq<string>, b: seq<string>)
    ensures TotalWords(a + b) == TotalWords(a) + TotalWords(b)
    decreases |b|
  {
    if b == [] {
      assert a + b == a;
    } else {
      assert (a + b)[..|a + b| - 1] == a + b[..|b| - 1];
      TotalWordsAppend(a, b[..|b| - 1]);
    }
  }

  // ---------------------------------------------------------------------------
  // s[a:b]

  /** Python's `s[a:b]` for non-negative a and b: both ends are clamped to the string. */
  function Slice(s: string, a: nat, b: nat): (r: string)
    ensures a <= b <= |s| ==> r == s[a..b]
    ensures b < a || |s| <= a ==> r == []
  {
    var hi := if b <= |s| then b else |s|;
    if a < hi then s[a..hi] else []
  }

  // ---------------------------------------------------------------------------
  // str.strip()

  /** Number of whitespace characters s begins with. */
  function LeadingSpace(s: string): (n: nat)
    ensures n <= |s|
    ensures forall i :: 0 <= i < n ==> IsSpace(s[i])
    ensures n < |s| ==> !IsSpace(s[n])
  {
    if s != [] && IsSpace(s[0]) then 1 + LeadingSpace(s[1..]) else 0
  }

  /** Number of whitespace characters s ends with. */
  function TrailingSpace(s: string): (n: nat)
    ensures n <= |s|
    ensures forall i :: |s| - n <= i < |s| ==> IsSpace(s[i])
    ensures n < |s| ==> !IsSpace(s[|s| - 1 - n])
  {
    if s != [] && IsSpace(s[|s| - 1]) then 1 + TrailingSpace(s[..|s| - 1]) else 0
  }

  /**
   * Python's `s.strip()`: s without its leading and trailing whitespace.
   * The result is the slice of s that starts at the first non-whitespace
   * character and is followed only by whitespace (StripSpec).
   */
  function Strip(s: string): (r: string)
    ensures |r| <= |s|
  {
    var i := LeadingSpace(s);
    if i == |s| then [] else s[i..|s| - TrailingSpace(s)]
  }

  /**
   * `s.strip()` removes exactly the leading and the trailing whitespace: the
   * result is the part of s after its leading run, followed in s only by
   * whitespace, and it neither starts nor ends with whitespace.
   */
  lemma StripSpec(s: string)
    ensures var r := Strip(s);
      && (r == [] <==> AllSpace(s))
      && (r == [] || (!IsSpace(r[0]) && !IsSpace(r[|r| - 1])))
      && LeadingSpace(s) + |r| <= |s|
      && s[LeadingSpace(s)..LeadingSpace(s) + |r|] == r
      && AllSpace(s[LeadingSpace(s) + |r|..])
  {
    var i, t, r := LeadingSpace(s), TrailingSpace(s), Strip(s);
    TrailingAllSpace(s);
    if i == |s| {
      assert r == [];
      assert s[i..i] == [];
    } else {
      TrailingAfter(s, i);
      assert r == s[i..|s| - t];
      assert r[0] == s[i] && r[|r| - 1] == s[|s| - t - 1];
    }
  }

  /** The trailing whitespace run is all whitespace. */
  lemma TrailingAllSpace(s: string)
    ensures AllSpace(s[|s| - TrailingSpace(s)..])
  {
    var t := TrailingSpace(s);
    var tail := s[|s| - t..];
    forall k | 0 <= k < |tail|
      ensures IsSpace(tail[k])
    {
      assert tail[k] == s[|s| - t + k];
    }
  }

  /** A non-whitespace character comes before the trailing whitespace run. */
  lemma TrailingAfter(s: string, k: nat)
    requires k < |s| && !IsSpace(s[k])
    ensures k < |s| - TrailingSpace(s)
  {
  }



  // ---------------------------------------------------------------------------
  // str.lower() and substring tests

  /** Python's `lower()` on one character; only ASCII letters are folded in this model. */
  function LowerChar(c: char): char {
    if 'A' <= c <= 'Z' then (c as int + 32) as char else c
  }

  function Lower(s: string): (r: string)
    ensures |r| == |s|
  {
    seq(|s|, i requires 0 <= i < |s| => LowerChar(s[i]))
  }

  predicate StartsWith(s: string, w: string) {
    |w| <= |s| && s[..|w|] == w
  }

  /** Python's `w in s` on strings. */
  predicate Contains(s: string, w: string)
    decreases |s|
  {
    StartsWith(s, w) || (s != [] && Contains(s[1..], w))
  }

  /** `w in s` holds when w occurs in s at some offset; `ContainsOccurs` is the converse. */
  lemma {:induction false} ContainsAt(s: string, w: string, i: nat)
    requires i + |w| <= |s|
    ensures s[i..i + |w|] == w ==> Contains(s, w)
    decreases i
  {
    if i > 0 {
      assert s[1..][i - 1..i - 1 + |w|] == s[i..i + |w|];
      ContainsAt(s[1..], w, i - 1);
    }
  }

  /** w occurs in s at offset i. */
  predicate OccursAt(s: string, w: string, i: nat) {
    i + |w| <= |s| && s[i..i + |w|] == w
  }

  /** `w in s` holds only when w occurs in s at some offset. */
  lemma {:induction false} ContainsOccurs(s: string, w: string)
    requires Contains(s, w)
    ensures exists i: nat :: OccursAt(s, w, i)
    decreases |s|
  {
    if StartsWith(s, w) {
      assert OccursAt(s, w, 0);
    } else {
      ContainsOccurs(s[1..], w);
      var i: nat :| OccursAt(s[1..], w, i);
      assert s[1..][i..i + |w|] == s[i + 1..i + 1 + |w|];
      assert OccursAt(s, w, i + 1);
    }
  }

  /** Every occurrence of `w + v` is an occurrence of w. */
  lemma {:induction false} ContainsPrefix(s: string, w: string, v: string)
    requires Contains(s, w + v)
    ensures Contains(s, w)
    decreases |s|
  {
    if StartsWith(s, w + v) {
      assert s[..|w|] == (w + v)[..|w|] == w;
    } else {
      ContainsPrefix(s[1..], w, v);
    }
  }

  // ---------------------------------------------------------------------------
  // Decimal rendering

  function DigitChar(d: nat): char
    requires d < 10
  {
    ('0' as int + d) as char
  }

  /** Python's `str(n)` for a non-negative integer. */
  function NatToString(n: nat): (r: string)
    ensures r != [] && forall i :: 0 <= i < |r| ==> IsDigit(r[i])
    ensures |r| > 1 ==> r[0] != '0'
  {
    if n < 10 then [DigitChar(n)] else NatToString(n / 10) + [DigitChar(n % 10)]
  }

  /** The number a string of decimal digits denotes. */
  function DecimalValue(s: string): nat
    requires forall i :: 0 <= i < |s| ==> IsDigit(s[i])
  {
    if s == [] then 0
    else
      assert IsDigit(s[|s| - 1]);
      10 * DecimalValue(s[..|s| - 1]) + (s[|s| - 1] as int - '0' as int)
  }

  /** Rendering a number in decimal loses nothing: reading the digits back gives the number. */
  lemma {:induction false} DecimalValueOfNatToString(n: nat)
    ensures DecimalValue(NatToString(n)) == n
  {
    if n >= 10 {
      var r := NatToString(n);
      assert r[..|r| - 1] == NatToString(n / 10);
      DecimalValueOfNatToString(n / 10);
    }
  }

  // ---------------------------------------------------------------------------
  // f"{x:.3f}"

  /**
   * y rounded to the nearest integer, ties to the even neighbour: the rounding
   * Python applies to the exact value of a float when it formats it.
   */
  function RoundHalfEven(y: real): (n: int)
    ensures -0.5 <= y - n as real <= 0.5
    ensures (y - n as real == 0.5 || n as real - y == 0.5) ==> n % 2 == 0
  {
    var f := y.Floor;
    var frac := y - f as real;
    if frac < 0.5 then f
    else if frac > 0.5 then f + 1
    else if f % 2 == 0 then f
    else f + 1
  }

  /** Three decimal digits of d, with leading zeros. */
  function Pad3(d: nat): (r: string)
    requires d < 1000
    ensures |r| == 3 && forall i :: 0 <= i < 3 ==> IsDigit(r[i])
  {
    [DigitChar(d / 100), DigitChar(d / 10 % 10), DigitChar(d % 10)]
  }

  /**
   * Python's `f"{x:.3f}"` on the exact value x: a minus sign for a negative
   * value (kept even when the rounded digits are all zero), the integer part,
   * a point and three digits of |x| rounded half-to-even at the third decimal.
   */
  function Fixed3(x: real): string {
    var n := RoundHalfEven((if x < 0.0 then -x else x) * 1000.0);
    assert n >= 0;
    (if x < 0.0 then "-" else "") + NatToString(n / 1000) + "." + Pad3(n % 1000)
  }

  /** The value a rendering `[-]digits.ddd` stands for. */
  function Fixed3Value(r: string): real
    requires |r| >= 5 && r[|r| - 4] == '.'
    requires forall i :: 0 <= i < |r| && i != |r| - 4 && !(i == 0 && r[0] == '-') ==> IsDigit(r[i])
  {
    var neg := r[0] == '-';
    var start := if neg then 1 else 0;
    var digits := r[start..|r| - 4] + r[|r| - 3..];
    var v := DecimalValue(digits) as real / 1000.0;
    if neg then -v else v
  }

  /** One more digit at the end: ten times the value, plus the digit. */
  lemma DecimalValueSnoc(a: string, c: char)
    requires forall i :: 0 <= i < |a| ==> IsDigit(a[i])
    requires IsDigit(c)
    ensures forall i :: 0 <= i < |a + [c]| ==> IsDigit((a + [c])[i])
    ensures DecimalValue(a + [c]) == 10 * DecimalValue(a) + (c as int - '0' as int)
  {
    assert (a + [c])[..|a|] == a;
  }

  /** Three padded digits after a, as in `f"{n // 1000}" + Pad3(n % 1000)`. */
  lemma {:induction false} DecimalValuePad3(a: string, d: nat)
    requires forall i :: 0 <= i < |a| ==> IsDigit(a[i])
    requires d < 1000
    ensures forall i :: 0 <= i < |a + Pad3(d)| ==> IsDigit((a + Pad3(d))[i])
    ensures DecimalValue(a + Pad3(d)) == 1000 * DecimalValue(a) + d
  {
    var p := Pad3(d);
    var a1 := a + [p[0]];
    var a2 := a1 + [p[1]];
    DecimalValueSnoc(a, p[0]);
    DecimalValueSnoc(a1, p[1]);
    DecimalValueSnoc(a2, p[2]);
    assert a2 + [p[2]] == a + p;
    Pad3Value(d);
  }

  /** The three padded digits of d stand for d. */
  lemma Pad3Value(d: nat)
    requires d < 1000
    ensures var p := Pad3(d);
      100 * (p[0] as int - '0' as int) + 10 * (p[1] as int - '0' as int) + (p[2] as int - '0' as int) == d
  {
    var h, t, u := d / 100, d / 10 % 10, d % 10;
    assert d == 100 * h + d % 100;
    assert d % 100 == 10 * t + u;
  }


  /** A rendering assembled from a sign, integer digits and three decimals is well formed. */
  lemma RenderedShape(sign: string, whole: string, frac: string)
    requires sign == "" || sign == "-"
    requires whole != [] && forall i :: 0 <= i < |whole| ==> IsDigit(whole[i])
    requires |frac| == 3 && forall i :: 0 <= i < 3 ==> IsDigit(frac[i])
    ensures var r := sign + whole + "." + frac;
      && |r| >= 5 && r[|r| - 4] == '.'
      && (forall i :: 0 <= i < |r| && i != |r| - 4 && !(i == 0 && r[0] == '-') ==> IsDigit(r[i]))
      && (r[0] == '-' <==> sign == "-")
  {
    var r := sign + whole + "." + frac;
    var start := |sign|;
    assert r[0] == (if sign == "-" then '-' else whole[0]);
    forall i | 0 <= i < |r| && i != |r| - 4 && !(i == 0 && r[0] == '-')
      ensures IsDigit(r[i])
    {
      if i < start + |whole| {
        assert r[i] == whole[i - start];
      } else {
        assert r[i] == frac[i - start - |whole| - 1];
      }
    }
  }

  /** Two digit strings together are a digit string. */
  lemma DigitsConcat(a: string, b: string)
    requires forall i :: 0 <= i < |a| ==> IsDigit(a[i])
    requires forall i :: 0 <= i < |b| ==> IsDigit(b[i])
    ensures forall i :: 0 <= i < |a + b| ==> IsDigit((a + b)[i])
  {
    forall i | 0 <= i < |a + b|
      ensures IsDigit((a + b)[i])
    {
      if i < |a| {
        assert (a + b)[i] == a[i];
      } else {
        assert (a + b)[i] == b[i - |a|];
      }
    }
  }

  /** A rendering assembled from a sign, integer digits and three decimals is well formed, and shows their value. */
  lemma RenderedValue(sign: string, whole: string, frac: string)
    requires sign == "" || sign == "-"
    requires whole != [] && forall i :: 0 <= i < |whole| ==> IsDigit(whole[i])
    requires |frac| == 3 && forall i :: 0 <= i < 3 ==> IsDigit(frac[i])
    ensures var r := sign + whole + "." + frac;
      && |r| >= 5 && r[|r| - 4] == '.'
      && (forall i :: 0 <= i < |r| && i != |r| - 4 && !(i == 0 && r[0] == '-') ==> IsDigit(r[i]))
      && (r[0] == '-' <==> sign == "-")
      && (forall i :: 0 <= i < |whole + frac| ==> IsDigit((whole + frac)[i]))
      && Fixed3Value(r) == (if sign == "-" then -1.0 else 1.0) * (DecimalValue(whole + frac) as real / 1000.0)
  {
    RenderedShape(sign, whole, frac);
    var r := sign + whole + "." + frac;
    var start := if r[0] == '-' then 1 else 0;
    assert start == |sign|;
    assert r[start..|r| - 4] + r[|r| - 3..] == whole + frac by {
      assert r[start..|r| - 4] == whole;
      assert r[|r| - 3..] == frac;
    }
    DigitsConcat(whole, frac);
    var v := DecimalValue(whole + frac) as real / 1000.0;
    if sign == "-" {
      assert Fixed3Value(r) == -v;
    } else {
      assert Fixed3Value(r) == v;
    }
  }

  /**
   * The rendering `f"{x:.3f}"` is well formed, and the value it shows is
   * within half a thousandth of x.
   */
  lemma Fixed3Close(x: real)
    ensures var r := Fixed3(x);
      && |r| >= 5 && r[|r| - 4] == '.'
      && (forall i :: 0 <= i < |r| && i != |r| - 4 && !(i == 0 && r[0] == '-') ==> IsDigit(r[i]))
      && -0.0005 <= Fixed3Value(r) - x <= 0.0005
  {
    var y := if x < 0.0 then -x else x;
    var n := RoundHalfEven(y * 1000.0);
    var sign: string := if x < 0.0 then "-" else "";
    var whole, frac := NatToString(n / 1000), Pad3(n % 1000);
    assert Fixed3(x) == sign + whole + "." + frac;
    RenderedValue(sign, whole, frac);
    DecimalValuePad3(whole, n % 1000);
    DecimalValueOfNatToString(n / 1000);
    assert DecimalValue(whole + frac) == n;
  }
}

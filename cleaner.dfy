/**
 * `SECDataLoader.clean_text`: a fixed composition of `re.sub` passes over the
 * text extracted from a filing, then `strip()`. Each pattern is modelled by
 * where the match Python's backtracking matcher finds at a position ends,
 * and `re.sub` by the left-to-right scan over positions that replaces each
 * non-overlapping match and keeps every character no match covers.
 */
module Cleaning {
  import opened Wrappers
  import opened Text
  import opened Seqs

  /** The five regular expressions `clean_text` substitutes. */
  datatype Pattern =
    | Whitespace          // \s+
    | NumberLine          // \n\s*\d+\s*\n
    | PageNumber          // -\s*\d+\s*-
    | Phrase(w: string)   // a literal, matched with re.IGNORECASE
    | Newlines            // \n+

  // ---------------------------------------------------------------------------
  // Scanning from a position

  /** Where the whitespace run starting at position k ends. */
  function SpaceEnd(s: string, k: nat): (e: nat)
    requires k <= |s|
    ensures k <= e <= |s|
    ensures forall i :: k <= i < e ==> IsSpace(s[i])
    ensures e < |s| ==> !IsSpace(s[e])
    decreases |s| - k
  {
    if k < |s| && IsSpace(s[k]) then SpaceEnd(s, k + 1) else k
  }

  /** Where the run of decimal digits starting at position k ends. */
  function DigitEnd(s: string, k: nat): (e: nat)
    requires k <= |s|
    ensures k <= e <= |s|
    ensures forall i :: k <= i < e ==> IsDigit(s[i])
    ensures e < |s| ==> !IsDigit(s[e])
    decreases |s| - k
  {
    if k < |s| && IsDigit(s[k]) then DigitEnd(s, k + 1) else k
  }

  /** Where the run of newlines starting at position k ends. */
  function NewlineEnd(s: string, k: nat): (e: nat)
    requires k <= |s|
    ensures k <= e <= |s|
    ensures forall i :: k <= i < e ==> s[i] == '\n'
    ensures e < |s| ==> s[e] != '\n'
    decreases |s| - k
  {
    if k < |s| && s[k] == '\n' then NewlineEnd(s, k + 1) else k
  }

  /** The last position in [lo, hi) holding a newline, if any. */
  function LastNewline(s: string, lo: nat, hi: nat): (r: Option<nat>)
    requires lo <= hi <= |s|
    ensures r.Some? ==> lo <= r.value < hi && s[r.value] == '\n' && forall i :: r.value < i < hi ==> s[i] != '\n'
    ensures r.None? ==> forall i :: lo <= i < hi ==> s[i] != '\n'
    decreases hi - lo
  {
    if hi == lo then None
    else if s[hi - 1] == '\n' then Some(hi - 1)
    else LastNewline(s, lo, hi - 1)
  }

  /**
   * Where the match of p that starts at position k ends, or None. Every
   * quantifier is greedy; where a shorter choice could still lead to a
   * match, the longest that does is taken, as backtracking would.
   */
  function MatchEnd(p: Pattern, s: string, k: nat): (m: Option<nat>)
    requires k <= |s|
    ensures m.Some? ==> k < m.value <= |s|
  {
    match p
    case Whitespace =>
      var e := SpaceEnd(s, k);
      if e == k then None else Some(e)
    case NumberLine =>
      if k == |s| || s[k] != '\n' then None
      else
        var a := SpaceEnd(s, k + 1);
        var b := DigitEnd(s, a);
        if b == a then None
        else
          var last := LastNewline(s, b, SpaceEnd(s, b));
          if last.None? then None else Some(last.value + 1)
    case PageNumber =>
      if k == |s| || s[k] != '-' then None
      else
        var a := SpaceEnd(s, k + 1);
        var b := DigitEnd(s, a);
        if b == a then None
        else
          var c := SpaceEnd(s, b);
          if c < |s| && s[c] == '-' then Some(c + 1) else None
    case Phrase(w) =>
      if w != [] && k + |w| <= |s| && Lower(s[k..k + |w|]) == Lower(w) then Some(k + |w|) else None
    case Newlines =>
      var e := NewlineEnd(s, k);
      if e == k then None else Some(e)
  }

  /** `re.sub(p, repl, s[k:])`: replace each match, keep each character no match starts at. */
  function SubFrom(p: Pattern, s: string, k: nat, repl: string): string
    requires k <= |s|
    decreases |s| - k
  {
    if k == |s| then []
    else
      match MatchEnd(p, s, k)
      case Some(e) => repl + SubFrom(p, s, e, repl)
      case None => [s[k]] + SubFrom(p, s, k + 1, repl)
  }

  /** `re.sub(p, repl, s)`. */
  function Sub(p: Pattern, s: string, repl: string): string {
    SubFrom(p, s, 0, repl)
  }

  /** The two form headers the cleaner deletes, in any case. */
  const SecHeader: string := "UNITED STATES SECURITIES AND EXCHANGE COMMISSION"
  const FormHeader: string := "FORM 10-K"

  /** The first pass: every maximal whitespace run becomes one space. */
  function Collapse(s: string): string {
    Sub(Whitespace, s, " ")
  }

  /** The page-number pass and the two header passes, which delete what they match. */
  function Deletions(s: string): string {
    Sub(Phrase(FormHeader), Sub(Phrase(SecHeader), Sub(PageNumber, s, ""), ""), "")
  }

  /** `clean_text(text)`. */
  function CleanText(text: string): string {
    if text == [] then ""
    else
      var collapsed := Collapse(text);
      var noNumberLines := Sub(NumberLine, collapsed, "\n");
      var noPageNumbers := Sub(PageNumber, noNumberLines, "");
      var noSecHeader := Sub(Phrase(SecHeader), noPageNumbers, "");
      var noFormHeader := Sub(Phrase(FormHeader), noSecHeader, "");
      var singleNewlines := Sub(Newlines, noFormHeader, "\n");
      Strip(singleNewlines)
  }

  // ---------------------------------------------------------------------------
  // The patterns

  /** s[lo..hi] is all whitespace. */
  predicate AllSpaceIn(s: string, lo: nat, hi: nat)
    requires lo <= hi <= |s|
  {
    forall i :: lo <= i < hi ==> IsSpace(s[i])
  }

  /** s[lo..hi] is all decimal digits. */
  predicate AllDigitsIn(s: string, lo: nat, hi: nat)
    requires lo <= hi <= |s|
  {
    forall i :: lo <= i < hi ==> IsDigit(s[i])
  }

  /** `\s+` at position k matches exactly the maximal whitespace run there. */
  lemma WhitespaceMatchIff(s: string, k: nat, e: nat)
    requires k <= |s|
    ensures MatchEnd(Whitespace, s, k) == Some(e) <==>
      k < e <= |s| && AllSpaceIn(s, k, e) && (e < |s| ==> !IsSpace(s[e]))
  {
  }

  /** The text s[k..e] is one `-\s*\d+\s*-`: dash, whitespace, at least one digit, whitespace, dash. */
  predicate PageNumberAt(s: string, k: nat, e: nat)
    requires k <= e <= |s|
  {
    && e >= k + 3 && s[k] == '-' && s[e - 1] == '-'
    && exists i, j :: k + 1 <= i < j <= e - 1 && AllSpaceIn(s, k + 1, i) && AllDigitsIn(s, i, j) && AllSpaceIn(s, j, e - 1)
  }

  /** A page-number match at k covers text of that form. */
  lemma PageNumberMatchForm(s: string, k: nat, e: nat)
    requires k <= |s| && MatchEnd(PageNumber, s, k) == Some(e)
    ensures PageNumberAt(s, k, e)
  {
    var a := SpaceEnd(s, k + 1);
    var b := DigitEnd(s, a);
    assert AllSpaceIn(s, k + 1, a) && AllDigitsIn(s, a, b) && AllSpaceIn(s, b, e - 1);
  }

  /**
   * Conversely, text of that form at k is exactly what the pattern matches
   * there: the form fixes where it ends, so the pass deletes precisely it.
   */
  lemma PageNumberFormMatches(s: string, k: nat, e: nat)
    requires k <= e <= |s| && PageNumberAt(s, k, e)
    ensures MatchEnd(PageNumber, s, k) == Some(e)
  {
    var i, j :| k + 1 <= i < j <= e - 1 && AllSpaceIn(s, k + 1, i) && AllDigitsIn(s, i, j) && AllSpaceIn(s, j, e - 1);
    assert IsDigit(s[i]) && !IsSpace('-');
    if j < e - 1 {
      assert IsSpace(s[j]);
    }
  }

  // ---------------------------------------------------------------------------
  // re.sub

  /** A replacement no longer than one character never lengthens the text: every match covers at least one. */
  lemma {:induction false} SubLength(p: Pattern, s: string, k: nat, repl: string)
    requires k <= |s| && |repl| <= 1
    ensures |SubFrom(p, s, k, repl)| <= |s| - k
    decreases |s| - k
  {
    if k < |s| {
      match MatchEnd(p, s, k)
      case Some(e) => SubLength(p, s, e, repl);
      case None => SubLength(p, s, k + 1, repl);
    }
  }

  /** Where the pattern matches nowhere, the pass keeps the text as it is. */
  lemma {:induction false} NoMatchKeeps(p: Pattern, s: string, k: nat, repl: string)
    requires k <= |s|
    requires forall x :: k <= x < |s| ==> MatchEnd(p, s, x).None?
    ensures SubFrom(p, s, k, repl) == s[k..]
    decreases |s| - k
  {
    if k < |s| {
      NoMatchKeeps(p, s, k + 1, repl);
      assert s[k..] == [s[k]] + s[k + 1..];
    }
  }

  /** Deleting matches keeps the other characters, in order. */
  lemma {:induction false} DeletionIsSubsequence(p: Pattern, s: string, k: nat)
    requires k <= |s|
    ensures IsSubsequence(SubFrom(p, s, k, ""), s[k..])
    decreases |s| - k
  {
    if k < |s| {
      var r := SubFrom(p, s, k, "");
      match MatchEnd(p, s, k)
      case Some(e) =>
        var rest := SubFrom(p, s, e, "");
        assert r == [] + rest;
        DeletionIsSubsequence(p, s, e);
        EmptySubsequence(s[k..e]);
        SubsequenceConcat([], s[k..e], rest, s[e..]);
        DropSplit(s, k, e);
      case None =>
        var rest := SubFrom(p, s, k + 1, "");
        assert r == [s[k]] + rest;
        DeletionIsSubsequence(p, s, k + 1);
        SubsequenceRefl([s[k]]);
        SubsequenceConcat([s[k]], [s[k]], rest, s[k + 1..]);
        DropSplit(s, k, k + 1);
        assert s[k..k + 1] == [s[k]];
    }
  }

  /** Every whitespace character of s is a plain space. */
  predicate SpacesAreBlank(s: string) {
    forall i :: 0 <= i < |s| && IsSpace(s[i]) ==> s[i] == ' '
  }

  /** Deleting matches brings in no new character, so text whose whitespace is all blanks stays so. */
  lemma {:induction false} DeletionKeepsBlank(p: Pattern, s: string, k: nat)
    requires k <= |s| && SpacesAreBlank(s)
    ensures SpacesAreBlank(SubFrom(p, s, k, ""))
    decreases |s| - k
  {
    if k < |s| {
      match MatchEnd(p, s, k)
      case Some(e) =>
        DeletionKeepsBlank(p, s, e);
        assert "" + SubFrom(p, s, e, "") == SubFrom(p, s, e, "");
      case None =>
        DeletionKeepsBlank(p, s, k + 1);
        var r := SubFrom(p, s, k + 1, "");
        assert forall i :: 0 < i <= |r| ==> ([s[k]] + r)[i] == r[i - 1];
    }
  }

  /** The passes whose pattern starts with a newline change nothing in text without one. */
  lemma NoNewlineKeeps(p: Pattern, s: string, repl: string)
    requires p == NumberLine || p == Newlines
    requires SpacesAreBlank(s)
    ensures Sub(p, s, repl) == s
  {
    assert IsSpace('\n');
    forall x | 0 <= x < |s| ensures MatchEnd(p, s, x).None? {
      assert s[x] != '\n';
    }
    NoMatchKeeps(p, s, 0, repl);
  }

  // ---------------------------------------------------------------------------
  // The whitespace collapse

  /** No two spaces in a row. */
  predicate SingleSpaced(s: string) {
    forall i :: 0 <= i < |s| - 1 ==> !(s[i] == ' ' && s[i + 1] == ' ')
  }

  /** The collapse from k keeps the character at k, turning whitespace into a space. */
  lemma CollapseHead(s: string, k: nat)
    requires k < |s|
    ensures var r := SubFrom(Whitespace, s, k, " ");
      r != [] && r[0] == if IsSpace(s[k]) then ' ' else s[k]
  {
  }

  /** After the collapse every whitespace character is a space and no two spaces are adjacent. */
  lemma {:induction false} CollapseSingleSpaced(s: string, k: nat)
    requires k <= |s|
    ensures SpacesAreBlank(SubFrom(Whitespace, s, k, " "))
    ensures SingleSpaced(SubFrom(Whitespace, s, k, " "))
    decreases |s| - k
  {
    if k < |s| {
      var r := SubFrom(Whitespace, s, k, " ");
      if IsSpace(s[k]) {
        var e := SpaceEnd(s, k);
        var rest := SubFrom(Whitespace, s, e, " ");
        CollapseSingleSpaced(s, e);
        assert r == " " + rest;
        if e < |s| {
          CollapseHead(s, e);
        }
        assert forall i :: 0 < i < |r| ==> r[i] == rest[i - 1];
      } else {
        var rest := SubFrom(Whitespace, s, k + 1, " ");
        CollapseSingleSpaced(s, k + 1);
        assert r == [s[k]] + rest;
        assert forall i :: 0 < i < |r| ==> r[i] == rest[i - 1];
      }
    }
  }

  /** Text whose only whitespace is single spaces is left as it is by the collapse. */
  lemma {:induction false} CollapseKeepsCollapsed(s: string, k: nat)
    requires k <= |s| && SpacesAreBlank(s) && SingleSpaced(s)
    ensures SubFrom(Whitespace, s, k, " ") == s[k..]
    decreases |s| - k
  {
    if k < |s| {
      if IsSpace(s[k]) {
        assert k + 1 < |s| ==> !IsSpace(s[k + 1]);
        var e := SpaceEnd(s, k);
        assert e == k + 1;
        CollapseKeepsCollapsed(s, e);
        assert s[k..] == " " + s[e..];
      } else {
        CollapseKeepsCollapsed(s, k + 1);
        assert s[k..] == [s[k]] + s[k + 1..];
      }
    }
  }

  /** Collapsing twice is collapsing once. */
  lemma CollapseIdempotent(s: string)
    ensures Collapse(Collapse(s)) == Collapse(s)
  {
    CollapseSingleSpaced(s, 0);
    CollapseKeepsCollapsed(Collapse(s), 0);
  }

  /** The collapse copies a word character for character. */
  lemma {:induction false} CollapseCopiesWord(s: string, k: nat, e: nat)
    requires k <= e <= |s| && NoSpace(s[k..e])
    ensures SubFrom(Whitespace, s, k, " ") == s[k..e] + SubFrom(Whitespace, s, e, " ")
    decreases e - k
  {
    if k < e {
      var word, rest := s[k..e], s[k + 1..e];
      assert !IsSpace(word[0]);
      assert NoSpace(rest) by {
        forall i | 0 <= i < |rest| ensures !IsSpace(rest[i]) {
          assert rest[i] == word[i + 1];
        }
      }
      CollapseCopiesWord(s, k + 1, e);
      assert word == [s[k]] + rest;
    }
  }

  /** The collapse keeps the words: `split()` finds the same ones before and after. */
  lemma {:induction false} CollapseKeepsWords(s: string, k: nat)
    requires k <= |s|
    ensures Words(SubFrom(Whitespace, s, k, " ")) == Words(s[k..])
    decreases |s| - k
  {
    if k < |s| {
      var r := SubFrom(Whitespace, s, k, " ");
      if IsSpace(s[k]) {
        var e := SpaceEnd(s, k);
        var rest := SubFrom(Whitespace, s, e, " ");
        assert Words(r) == Words(rest) by {
          assert r == " " + rest;
          WordsSkipSpace(" ", rest);
        }
        assert Words(s[k..]) == Words(s[e..]) by {
          DropSplit(s, k, e);
          WordsSkipSpace(s[k..e], s[e..]);
        }
        CollapseKeepsWords(s, e);
      } else {
        var e := k + WordEnd(s[k..]);
        var word, rest := s[k..e], SubFrom(Whitespace, s, e, " ");
        assert rest == [] || IsSpace(rest[0]) by {
          if e < |s| {
            assert s[e] == s[k..][e - k];
            CollapseHead(s, e);
          }
        }
        assert Words(r) == Words(word) + Words(rest) by {
          assert word == s[k..][..e - k];
          CollapseCopiesWord(s, k, e);
          WordsAppend(word, rest);
        }
        assert Words(s[k..]) == Words(word) + Words(s[e..]) by {
          DropSplit(s, k, e);
          if e < |s| {
            assert s[e] == s[k..][e - k];
          }
          WordsAppend(word, s[e..]);
        }
        CollapseKeepsWords(s, e);
      }
    }
  }

  // ---------------------------------------------------------------------------
  // clean_text

  /**
   * The two newline passes are dead: the collapse leaves no newline, so
   * `clean_text` is the collapse, the page-number and header deletions, and
   * `strip()`.
   */
  lemma CleanTextPasses(text: string)
    requires text != []
    ensures CleanText(text) == Strip(Deletions(Collapse(text)))
  {
    var collapsed := Collapse(text);
    CollapseSingleSpaced(text, 0);
    NoNewlineKeeps(NumberLine, collapsed, "\n");
    var t3 := Sub(PageNumber, collapsed, "");
    DeletionKeepsBlank(PageNumber, collapsed, 0);
    var t4 := Sub(Phrase(SecHeader), t3, "");
    DeletionKeepsBlank(Phrase(SecHeader), t3, 0);
    var t5 := Sub(Phrase(FormHeader), t4, "");
    DeletionKeepsBlank(Phrase(FormHeader), t4, 0);
    NoNewlineKeeps(Newlines, t5, "\n");
  }

  /** The deletion passes never lengthen the text and bring in no whitespace but blanks. */
  lemma DeletionsShrink(s: string)
    ensures |Deletions(s)| <= |s|
    ensures SpacesAreBlank(s) ==> SpacesAreBlank(Deletions(s))
  {
    var t3 := Sub(PageNumber, s, "");
    var t4 := Sub(Phrase(SecHeader), t3, "");
    SubLength(PageNumber, s, 0, "");
    SubLength(Phrase(SecHeader), t3, 0, "");
    SubLength(Phrase(FormHeader), t4, 0, "");
    if SpacesAreBlank(s) {
      DeletionKeepsBlank(PageNumber, s, 0);
      DeletionKeepsBlank(Phrase(SecHeader), t3, 0);
      DeletionKeepsBlank(Phrase(FormHeader), t4, 0);
    }
  }

  /** `strip()` keeps a part of the text, so it brings in no whitespace but blanks. */
  lemma StripKeepsBlank(s: string)
    requires SpacesAreBlank(s)
    ensures SpacesAreBlank(Strip(s))
  {
    var r := Strip(s);
    StripSpec(s);
    var i := LeadingSpace(s);
    forall x | 0 <= x < |r| && IsSpace(r[x]) ensures r[x] == ' ' {
      assert r[x] == s[i + x];
    }
  }

  /**
   * The cleaned text is never longer than the input, is empty for an empty
   * input, neither starts nor ends with whitespace, and holds no whitespace
   * but plain spaces; in particular no newline survives.
   */
  lemma CleanTextSpec(text: string)
    ensures var r := CleanText(text);
      && |r| <= |text|
      && (text == [] ==> r == [])
      && (r == [] || (!IsSpace(r[0]) && !IsSpace(r[|r| - 1])))
      && SpacesAreBlank(r)
      && '\n' !in r
  {
    if text != [] {
      var collapsed := Collapse(text);
      SubLength(Whitespace, text, 0, " ");
      CollapseSingleSpaced(text, 0);
      var deleted := Deletions(collapsed);
      DeletionsShrink(collapsed);
      CleanTextPasses(text);
      StripSpec(deleted);
      StripKeepsBlank(deleted);
      assert IsSpace('\n');
    }
  }

  /** `strip()` removes no word. */
  lemma StripKeepsWords(s: string)
    ensures Words(Strip(s)) == Words(s)
  {
    var r := Strip(s);
    var lead, tail := StripParts(s);
    assert Words(s) == Words(r + tail) by {
      WordsSkipSpace(lead, r + tail);
    }
    assert Words(r + tail) == Words(r) by {
      if tail != [] {
        assert IsSpace(tail[0]);
      }
      WordsAppend(r, tail);
      NoWordsIffAllSpace(tail);
      assert Words(r) + [] == Words(r);
    }
  }

  /** s is its leading whitespace, its stripped text and its trailing whitespace. */
  lemma StripParts(s: string) returns (lead: string, tail: string)
    ensures s == lead + (Strip(s) + tail) && AllSpace(lead) && AllSpace(tail)
  {
    var i, r := LeadingSpace(s), Strip(s);
    StripSlice(s);
    lead, tail := s[..i], s[i + |r|..];
    LeadingAllSpace(s);
    CutThree(s, i, i + |r|);
  }

  /** Strip(s) sits in s right after the leading whitespace and is followed only by whitespace. */
  lemma StripSlice(s: string)
    ensures LeadingSpace(s) + |Strip(s)| <= |s|
    ensures s[LeadingSpace(s)..LeadingSpace(s) + |Strip(s)|] == Strip(s)
    ensures AllSpace(s[LeadingSpace(s) + |Strip(s)|..])
  {
    StripSpec(s);
  }

  /** The leading whitespace run is all whitespace. */
  lemma LeadingAllSpace(s: string)
    ensures AllSpace(s[..LeadingSpace(s)])
  {
    var i := LeadingSpace(s);
    forall k | 0 <= k < i ensures IsSpace(s[..i][k]) {
      assert s[..i][k] == s[k];
    }
  }

  /** When no page number or header occurs, cleaning keeps exactly the words of the input. */
  lemma CleanTextWords(text: string)
    requires text != []
    requires forall x :: 0 <= x < |Collapse(text)| ==> MatchEnd(PageNumber, Collapse(text), x).None?
    requires forall x :: 0 <= x < |Collapse(text)| ==> MatchEnd(Phrase(SecHeader), Collapse(text), x).None?
    requires forall x :: 0 <= x < |Collapse(text)| ==> MatchEnd(Phrase(FormHeader), Collapse(text), x).None?
    ensures Words(CleanText(text)) == Words(text)
  {
    var collapsed := Collapse(text);
    CleanTextPasses(text);
    assert Deletions(collapsed) == collapsed by {
    NoMatchKeeps(PageNumber, collapsed, 0, "");
    NoMatchKeeps(Phrase(SecHeader), collapsed, 0, "");
    NoMatchKeeps(Phrase(FormHeader), collapsed, 0, "");
    assert collapsed[0..] == collapsed;
    }
    CollapseKeepsWords(text, 0);
    assert text[0..] == text;
    StripKeepsWords(collapsed);
  }

  /** `"a -1- b"` is already single-spaced: the first pass keeps it. */
  lemma CollapseOfExample()
    ensures Collapse("a -1- b") == "a -1- b"
  {
    var s := "a -1- b";
    assert !IsSpace('a') && IsSpace(' ') && !IsSpace('-') && !IsSpace('1') && !IsSpace('b');
    assert SpacesAreBlank(s) && SingleSpaced(s);
    CollapseKeepsCollapsed(s, 0);
    assert s[0..] == s;
  }

  /** The page-number pass deletes `-1-` and keeps the spaces around it. */
  lemma PageNumberOfExample()
    ensures Sub(PageNumber, "a -1- b", "") == "a  b"
  {
    var s := "a -1- b";
    assert SubFrom(PageNumber, s, 5, "") == " b" by {
      NoMatchKeeps(PageNumber, s, 5, "");
    }
    assert MatchEnd(PageNumber, s, 2) == Some(5) by {
      assert !IsSpace('1') && !IsSpace('-');
      assert SpaceEnd(s, 3) == 3 && DigitEnd(s, 3) == 4 && SpaceEnd(s, 4) == 4;
    }
  }

  /** No header occurs in `"a  b"`: the header passes keep it. */
  lemma DeletionsOfExample()
    ensures Deletions("a -1- b") == "a  b"
  {
    var t := "a  b";
    PageNumberOfExample();
    assert t[0..] == t;
    assert Sub(Phrase(SecHeader), t, "") == t by {
      NoMatchKeeps(Phrase(SecHeader), t, 0, "");
    }
    assert Sub(Phrase(FormHeader), t, "") == t by {
      NoMatchKeeps(Phrase(FormHeader), t, 0, "");
    }
  }

  /** `"a  b"` has no whitespace at either end. */
  lemma StripOfExample()
    ensures Strip("a  b") == "a  b"
  {
    var t := "a  b";
    assert !IsSpace('a') && !IsSpace('b');
    assert LeadingSpace(t) == 0 && TrailingSpace(t) == 0;
    assert t[0..|t|] == t;
  }

  /**
   * Deleting a page number between two spaces leaves both: the cleaned text
   * is not single-spaced in general.
   */
  lemma CleanTextCanDoubleSpace()
    ensures CleanText("a -1- b") == "a  b"
  {
    CleanTextPasses("a -1- b");
    CollapseOfExample();
    DeletionsOfExample();
    StripOfExample();
  }
}

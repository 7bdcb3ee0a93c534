/**
 * Section segmentation of a 10-K filing (`identify_sections_with_content`):
 * the six `ITEM n. HEADING` header patterns, Python's leftmost `re.search` with
 * `re.IGNORECASE` over them, and the labelled spans the segmenter cuts.
 */
module Sections {
  import opened Wrappers
  import opened Text
  import opened Seqs

  // ---------------------------------------------------------------------------
  // Header patterns

  /**
   * One element of a header regex: a literal matched case-insensitively,
   * `\s*`, or `\.?`.
   */
  datatype Token = Lit(text: string) | Spaces | OptDot

  /** Case-insensitive equality of two characters under `re.IGNORECASE` (ASCII letters). */
  predicate CiChar(c: char, d: char) {
    LowerChar(c) == LowerChar(d)
  }

  predicate CiEqual(s: string, w: string) {
    |s| == |w| && forall i :: 0 <= i < |s| ==> CiChar(s[i], w[i])
  }

  /**
   * Whether a match of toks starts at the beginning of s, found the way the
   * regex engine does it: each `\s*` takes the whole whitespace run, `\.?`
   * takes a dot when there is one.
   */
  predicate MatchesPrefix(toks: seq<Token>, s: string)
    decreases |toks|
  {
    if toks == [] then true
    else match toks[0]
      case Lit(w) => |w| <= |s| && CiEqual(s[..|w|], w) && MatchesPrefix(toks[1..], s[|w|..])
      case Spaces => MatchesPrefix(toks[1..], s[LeadingSpace(s)..])
      case OptDot => MatchesPrefix(toks[1..], if s != [] && s[0] == '.' then s[1..] else s)
  }

  /**
   * The regex meaning of toks, with every choice open: `\s*` may take any
   * number of whitespace characters, `\.?` may take a dot or not.
   */
  ghost predicate RegexMatchesPrefix(toks: seq<Token>, s: string)
    decreases |toks|
  {
    if toks == [] then true
    else match toks[0]
      case Lit(w) => |w| <= |s| && CiEqual(s[..|w|], w) && RegexMatchesPrefix(toks[1..], s[|w|..])
      case Spaces =>
        exists n :: 0 <= n <= |s| && AllSpace(s[..n]) && RegexMatchesPrefix(toks[1..], s[n..])
      case OptDot =>
        RegexMatchesPrefix(toks[1..], s) || (s != [] && s[0] == '.' && RegexMatchesPrefix(toks[1..], s[1..]))
  }

  predicate IsAlnum(c: char) {
    ('a' <= c <= 'z') || ('A' <= c <= 'Z') || ('0' <= c <= '9')
  }

  /**
   * The shape every header pattern has: literals begin with a letter or digit,
   * `\s*` is followed by a literal, `\.?` by `\s*`.
   */
  predicate WellFormed(toks: seq<Token>) {
    forall i :: 0 <= i < |toks| ==> WellFormedAt(toks, i)
  }

  predicate WellFormedAt(toks: seq<Token>, i: nat)
    requires i < |toks|
  {
    match toks[i]
    case Lit(w) => w != [] && IsAlnum(w[0])
    case Spaces => i + 1 < |toks| && toks[i + 1].Lit?
    case OptDot => i + 1 < |toks| && toks[i + 1] == Spaces
  }

  lemma WellFormedTail(toks: seq<Token>)
    requires toks != [] && WellFormed(toks)
    ensures WellFormed(toks[1..])
  {
    forall i | 0 <= i < |toks[1..]|
      ensures WellFormedAt(toks[1..], i)
    {
      assert WellFormedAt(toks, i + 1);
      assert toks[1..][i] == toks[i + 1];
      if i + 1 < |toks[1..]| {
        assert toks[1..][i + 1] == toks[i + 2];
      }
    }
  }

  /** A character equal to a letter or digit up to case is not whitespace and not a dot. */
  lemma CiAlnum(c: char, d: char)
    requires IsAlnum(d) && CiChar(c, d)
    ensures !IsSpace(c) && c != '.'
  {
  }

  /** A `\s*` followed by a literal can only take the whole whitespace run. */
  lemma SpacesForced(toks: seq<Token>, s: string, n: nat)
    requires WellFormed(toks) && toks != [] && toks[0].Lit?
    requires n <= |s| && AllSpace(s[..n]) && RegexMatchesPrefix(toks, s[n..])
    ensures n == LeadingSpace(s)
  {
    var w := toks[0].text;
    assert WellFormedAt(toks, 0);
    if n < |s| {
      assert s[n..][0] == s[n];
      assert CiChar(s[n], w[0]);
      CiAlnum(s[n], w[0]);
    }
    assert forall i :: 0 <= i < n ==> s[..n][i] == s[i];
  }

  /** A `\s*` followed by a literal cannot match text that starts with a dot. */
  lemma NoRegexMatchAtDot(toks: seq<Token>, s: string)
    requires WellFormed(toks) && toks != [] && toks[0] == Spaces
    requires s != [] && s[0] == '.'
    ensures !RegexMatchesPrefix(toks, s)
  {
    assert WellFormedAt(toks, 0) && WellFormedAt(toks, 1);
    var w := toks[1].text;
    assert !CiChar(s[0], w[0]);
    forall n | 0 <= n <= |s| && AllSpace(s[..n])
      ensures !RegexMatchesPrefix(toks[1..], s[n..])
    {
      SpaceRunHead(s, n);
      assert s[n..] == s;
    }
  }

  /** A non-empty run of whitespace at the start of s begins with whitespace. */
  lemma SpaceRunHead(s: string, n: nat)
    requires n <= |s| && AllSpace(s[..n])
    ensures n > 0 ==> IsSpace(s[0])
  {
    if n > 0 {
      assert s[..n][0] == s[0];
    }
  }

  /** The greedy matcher finds a match exactly when the regex has one. */
  lemma {:induction false} GreedyMatchesRegex(toks: seq<Token>, s: string)
    requires WellFormed(toks)
    ensures MatchesPrefix(toks, s) <==> RegexMatchesPrefix(toks, s)
    decreases |toks|
  {
    if toks != [] {
      WellFormedTail(toks);
      assert WellFormedAt(toks, 0);
      match toks[0]
      case Lit(w) =>
        if |w| <= |s| {
          GreedyMatchesRegex(toks[1..], s[|w|..]);
        }
      case Spaces =>
        var g := LeadingSpace(s);
        GreedyMatchesRegex(toks[1..], s[g..]);
        if MatchesPrefix(toks, s) {
          assert AllSpace(s[..g]);
        }
        if RegexMatchesPrefix(toks, s) {
          var n :| 0 <= n <= |s| && AllSpace(s[..n]) && RegexMatchesPrefix(toks[1..], s[n..]);
          SpacesForced(toks[1..], s, n);
        }
      case OptDot =>
        GreedyMatchesRegex(toks[1..], s);
        if s != [] {
          GreedyMatchesRegex(toks[1..], s[1..]);
          if s[0] == '.' {
            assert WellFormedAt(toks, 0);
            NoRegexMatchAtDot(toks[1..], s);
          }
        }
    }
  }

  // ---------------------------------------------------------------------------
  // re.search

  /** The leftmost offset at or after i where toks matches, if any. */
  function SearchFrom(toks: seq<Token>, s: string, i: nat): (r: Option<nat>)
    requires i <= |s|
    ensures r.Some? ==> i <= r.value <= |s|
    decreases |s| - i
  {
    if MatchesPrefix(toks, s[i..]) then Some(i)
    else if i == |s| then None
    else SearchFrom(toks, s, i + 1)
  }

  /** A match SearchFrom reports is there, and is the first at or after i. */
  lemma {:induction false} SearchFromFound(toks: seq<Token>, s: string, i: nat)
    requires i <= |s| && SearchFrom(toks, s, i).Some?
    ensures var k := SearchFrom(toks, s, i).value;
      MatchesPrefix(toks, s[k..]) && forall j :: i <= j < k ==> !MatchesPrefix(toks, s[j..])
    decreases |s| - i
  {
    if !MatchesPrefix(toks, s[i..]) {
      assert SearchFrom(toks, s, i) == SearchFrom(toks, s, i + 1);
      SearchFromFound(toks, s, i + 1);
    }
  }

  /** SearchFrom reports no match only when there is none at or after i. */
  lemma {:induction false} SearchFromMissing(toks: seq<Token>, s: string, i: nat)
    requires i <= |s| && SearchFrom(toks, s, i).None?
    ensures forall j :: i <= j <= |s| ==> !MatchesPrefix(toks, s[j..])
    decreases |s| - i
  {
    if i < |s| {
      assert SearchFrom(toks, s, i) == SearchFrom(toks, s, i + 1);
      SearchFromMissing(toks, s, i + 1);
    }
  }

  /** `re.search(pattern, s, re.IGNORECASE)`: the start of the leftmost match, or None. */
  function Search(toks: seq<Token>, s: string): (r: Option<nat>)
    ensures r.Some? ==> r.value <= |s|
  {
    SearchFrom(toks, s, 0)
  }

  /**
   * re.search finds the leftmost offset at which the regex matches, and
   * reports no match only when it matches nowhere.
   */
  lemma SearchLeftmost(toks: seq<Token>, s: string)
    requires WellFormed(toks)
    ensures var r := Search(toks, s);
      && (r.Some? ==> RegexMatchesPrefix(toks, s[r.value..])
                      && forall j :: 0 <= j < r.value ==> !RegexMatchesPrefix(toks, s[j..]))
      && (r.None? ==> forall j :: 0 <= j <= |s| ==> !RegexMatchesPrefix(toks, s[j..]))
  {
    if Search(toks, s).Some? {
      SearchFromFound(toks, s, 0);
    } else {
      SearchFromMissing(toks, s, 0);
    }
    forall j | 0 <= j <= |s| {
      GreedyMatchesRegex(toks, s[j..]);
    }
  }

  // ---------------------------------------------------------------------------
  // The section table

  datatype SectionPattern = SectionPattern(name: string, tokens: seq<Token>)

  /**
   * The six 10-K headers, in the order of the program's dictionary:
   * `ITEM\s*1\.?\s*BUSINESS`, `ITEM\s*1A\.?\s*RISK\s*FACTORS`,
   * `ITEM\s*2\.?\s*PROPERTIES`, `ITEM\s*3\.?\s*LEGAL\s*PROCEEDINGS`,
   * `ITEM\s*7\.?\s*MANAGEMENT'S\s*DISCUSSION`, `ITEM\s*8\.?\s*FINANCIAL\s*STATEMENTS`.
   */
  const SectionTable: seq<SectionPattern> := [
    SectionPattern("business",
      [Lit("ITEM"), Spaces, Lit("1"), OptDot, Spaces, Lit("BUSINESS")]),
    SectionPattern("risk_factors",
      [Lit("ITEM"), Spaces, Lit("1A"), OptDot, Spaces, Lit("RISK"), Spaces, Lit("FACTORS")]),
    SectionPattern("properties",
      [Lit("ITEM"), Spaces, Lit("2"), OptDot, Spaces, Lit("PROPERTIES")]),
    SectionPattern("legal",
      [Lit("ITEM"), Spaces, Lit("3"), OptDot, Spaces, Lit("LEGAL"), Spaces, Lit("PROCEEDINGS")]),
    SectionPattern("md_a",
      [Lit("ITEM"), Spaces, Lit("7"), OptDot, Spaces, Lit("MANAGEMENT'S"), Spaces, Lit("DISCUSSION")]),
    SectionPattern("financials",
      [Lit("ITEM"), Spaces, Lit("8"), OptDot, Spaces, Lit("FINANCIAL"), Spaces, Lit("STATEMENTS")])
  ]

  /** The label of the single span returned when no header is found. */
  const FullDocument: string := "full_document"

  /** Every header pattern has the well-formed shape, so the greedy matcher is the regex. */
  lemma TablePatternsWellFormed()
    ensures forall k :: 0 <= k < |SectionTable| ==> WellFormed(SectionTable[k].tokens)
  {
  }

  /** The table's labels are pairwise distinct and none is the fallback label. */
  lemma TableLabelsDistinct()
    ensures forall j, k :: 0 <= j < k < |SectionTable| ==> SectionTable[j].name != SectionTable[k].name
    ensures forall k :: 0 <= k < |SectionTable| ==> SectionTable[k].name != FullDocument
  {
  }

  // ---------------------------------------------------------------------------
  // Segmentation

  /** A section header found in the text: its label and the offset of its first match. */
  datatype Boundary = Boundary(name: string, start: nat)

  /** A labelled span of the document. */
  datatype Section = Section(name: string, content: string)

  /** The boundaries of the headers of table that occur in text, in table order. */
  function FoundIn(table: seq<SectionPattern>, text: string): (bs: seq<Boundary>)
    ensures |bs| <= |table|
    ensures forall b :: b in bs ==> b.start <= |text|
  {
    if table == [] then []
    else
      var p := table[|table| - 1];
      FoundIn(table[..|table| - 1], text)
        + match Search(p.tokens, text) case Some(k) => [Boundary(p.name, k)] case None => []
  }

  /** The sort key of `sorted(section_starts.items(), key=lambda x: x[1])`. */
  function StartKey(b: Boundary): real {
    b.start as real
  }

  /** The end of span i: the next boundary's start, or the end of the text. */
  function SpanEnd(bs: seq<Boundary>, i: nat, len: nat): nat
    requires i < |bs|
  {
    if i + 1 < |bs| then bs[i + 1].start else len
  }

  /** Boundaries that lie in text and are in ascending order. */
  predicate Ordered(bs: seq<Boundary>, len: nat) {
    (forall b :: b in bs ==> b.start <= len) && SortedBy(bs, StartKey)
  }

  /** Span i: the stripped text from boundary i to the next one, labelled by boundary i. */
  function SliceAt(text: string, bs: seq<Boundary>, i: nat): Section
    requires i < |bs|
  {
    Section(bs[i].name, Strip(Slice(text, bs[i].start, SpanEnd(bs, i, |text|))))
  }

  /** The stripped text between consecutive boundaries, labelled by the earlier one. */
  function Slices(text: string, bs: seq<Boundary>): (ss: seq<Section>)
    ensures |ss| == |bs|
  {
    seq(|bs|, i requires 0 <= i < |bs| => SliceAt(text, bs, i))
  }

  /** The boundaries found in table, in the order the segmenter cuts at them. */
  function SortedIn(table: seq<SectionPattern>, text: string): (bs: seq<Boundary>)
    ensures Ordered(bs, |text|)
    ensures multiset(bs) == multiset(FoundIn(table, text))
  {
    var bs := SortBy(FoundIn(table, text), StartKey);
    assert forall b :: b in bs ==> b in multiset(bs);
    bs
  }

  /** The segmentation of text by the headers of table. */
  function SegmentIn(table: seq<SectionPattern>, text: string): seq<Section> {
    if FoundIn(table, text) == [] then [Section(FullDocument, text)]
    else Slices(text, SortedIn(table, text))
  }

  /** What `identify_sections_with_content(text)` returns, in insertion order. */
  function Segment(text: string): seq<Section> {
    SegmentIn(SectionTable, text)
  }

  // ---------------------------------------------------------------------------
  // What the segmentation means

  predicate DistinctNames(table: seq<SectionPattern>) {
    forall j, k :: 0 <= j < k < |table| ==> table[j].name != table[k].name
  }

  /** Some header of table occurs in text. */
  predicate AnyHeader(table: seq<SectionPattern>, text: string) {
    exists k :: 0 <= k < |table| && Search(table[k].tokens, text).Some?
  }

  /** The first-match offset of the header of table called name. */
  function OffsetIn(table: seq<SectionPattern>, name: string, text: string): (r: Option<nat>)
    ensures r.Some? ==> exists k :: 0 <= k < |table| && table[k].name == name && Search(table[k].tokens, text) == r
  {
    if table == [] then None
    else if table[|table| - 1].name == name then Search(table[|table| - 1].tokens, text)
    else OffsetIn(table[..|table| - 1], name, text)
  }

  /** The first-match offset in text of the section header called name, if it occurs. */
  function OffsetOf(name: string, text: string): Option<nat> {
    OffsetIn(SectionTable, name, text)
  }

  lemma {:induction false} OffsetInAt(table: seq<SectionPattern>, k: nat, text: string)
    requires DistinctNames(table) && k < |table|
    ensures OffsetIn(table, table[k].name, text) == Search(table[k].tokens, text)
  {
    if k < |table| - 1 {
      OffsetInAt(table[..|table| - 1], k, text);
    }
  }

  /** No two boundaries carry the same label. */
  predicate NamesDistinct(bs: seq<Boundary>) {
    forall i, j :: 0 <= i < j < |bs| ==> bs[i].name != bs[j].name
  }

  /**
   * The boundaries found are the first matches of the headers that occur, one
   * per header, each labelled with its header's name.
   */
  lemma {:induction false} FoundInFirstMatches(table: seq<SectionPattern>, text: string)
    requires DistinctNames(table)
    ensures forall b :: b in FoundIn(table, text) ==> OffsetIn(table, b.name, text) == Some(b.start)
    ensures forall k :: 0 <= k < |table| && Search(table[k].tokens, text).Some? ==>
      Boundary(table[k].name, Search(table[k].tokens, text).value) in FoundIn(table, text)
    ensures NamesDistinct(FoundIn(table, text))
  {
    if table != [] {
      var init, p := table[..|table| - 1], table[|table| - 1];
      FoundInFirstMatches(init, text);
      var prior := FoundIn(init, text);
      forall b | b in prior
        ensures b.name != p.name && OffsetIn(table, b.name, text) == Some(b.start)
      {
        var k :| 0 <= k < |init| && init[k].name == b.name && Search(init[k].tokens, text) == Some(b.start);
        assert table[k] == init[k];
      }
      forall k | 0 <= k < |table| - 1 && Search(table[k].tokens, text).Some?
        ensures Boundary(table[k].name, Search(table[k].tokens, text).value) in FoundIn(table, text)
      {
        assert table[k] == init[k];
      }
      var bs := FoundIn(table, text);
      if Search(p.tokens, text).Some? {
        assert bs == prior + [Boundary(p.name, Search(p.tokens, text).value)];
        forall i, j | 0 <= i < j < |bs|
          ensures bs[i].name != bs[j].name
        {
          assert bs[i] == prior[i] && bs[i] in prior;
          if j < |prior| {
            assert bs[j] == prior[j];
            assert prior[i].name != prior[j].name;
          } else {
            assert bs[j].name == p.name;
          }
        }
      } else {
        assert bs == prior;
      }
    }
  }

  /** Headers were found exactly when some header occurs. */
  lemma {:induction false} FoundInEmpty(table: seq<SectionPattern>, text: string)
    ensures FoundIn(table, text) == [] <==> !AnyHeader(table, text)
  {
    if table != [] {
      var init, p := table[..|table| - 1], table[|table| - 1];
      FoundInEmpty(init, text);
      if AnyHeader(table, text) && Search(p.tokens, text).None? {
        var k :| 0 <= k < |table| && Search(table[k].tokens, text).Some?;
        assert k < |init| && init[k] == table[k];
      }
      if AnyHeader(init, text) {
        var k :| 0 <= k < |init| && Search(init[k].tokens, text).Some?;
        assert table[k] == init[k];
      }
    }
  }

  lemma TableNamesDistinct()
    ensures DistinctNames(SectionTable)
  {
    TableLabelsDistinct();
  }

  /** Some boundary is labelled name. */
  predicate HasBoundary(bs: seq<Boundary>, name: string) {
    exists i :: 0 <= i < |bs| && bs[i].name == name
  }

  /** Some span is labelled name. */
  predicate HasSection(ss: seq<Section>, name: string) {
    exists i :: 0 <= i < |ss| && ss[i].name == name
  }

  /** Sorting keeps every boundary the first match of its header. */
  lemma {:induction false} SortedAt(table: seq<SectionPattern>, text: string, i: nat)
    requires DistinctNames(table) && i < |SortedIn(table, text)|
    ensures var bs := SortedIn(table, text);
      OffsetIn(table, bs[i].name, text) == Some(bs[i].start) && bs[i].start <= |text|
  {
    FoundInFirstMatches(table, text);
    var bs := SortedIn(table, text);
    assert bs[i] in multiset(bs);
  }

  /** Sorting keeps one boundary per header. */
  lemma {:induction false} SortedNamesDistinctIn(table: seq<SectionPattern>, text: string)
    requires DistinctNames(table)
    ensures NamesDistinct(SortedIn(table, text))
  {
    FoundInFirstMatches(table, text);
    var found := FoundIn(table, text);
    var bs := SortedIn(table, text);
    forall i, j | 0 <= i < j < |found|
      ensures found[i] != found[j]
    {
      assert found[i].name != found[j].name;
    }
    DistinctPermutation(found, bs);
    forall i, j | 0 <= i < j < |bs|
      ensures bs[i].name != bs[j].name
    {
      SortedAt(table, text, i);
      SortedAt(table, text, j);
      assert bs[i] != bs[j];
    }
  }

  /** Sorting loses no header that occurs. */
  lemma {:induction false} SortedCompleteIn(table: seq<SectionPattern>, text: string, k: nat)
    requires DistinctNames(table) && k < |table| && Search(table[k].tokens, text).Some?
    ensures HasBoundary(SortedIn(table, text), table[k].name)
  {
    FoundInFirstMatches(table, text);
    var found := FoundIn(table, text);
    var bs := SortedIn(table, text);
    var b := Boundary(table[k].name, Search(table[k].tokens, text).value);
    assert b in found;
    assert b in multiset(found);
    assert b in multiset(bs);
    assert b in bs;
    var i :| 0 <= i < |bs| && bs[i] == b;
    assert bs[i].name == table[k].name;
  }

  /** Span i of a segmentation that found headers is cut at the i-th sorted boundary. */
  lemma {:induction false} SegmentInAt(table: seq<SectionPattern>, text: string, i: nat)
    requires FoundIn(table, text) != [] && i < |SortedIn(table, text)|
    ensures var bs := SortedIn(table, text);
      && |SegmentIn(table, text)| == |bs|
      && SegmentIn(table, text)[i] == Section(bs[i].name, Strip(Slice(text, bs[i].start, SpanEnd(bs, i, |text|))))
  {
  }

  /** A span's label, when some header occurs, is a header that occurs, at the sorted boundary's offset. */
  lemma {:induction false} SegmentInLabelAt(table: seq<SectionPattern>, text: string, i: nat)
    requires DistinctNames(table) && AnyHeader(table, text) && i < |SegmentIn(table, text)|
    ensures var ss, bs := SegmentIn(table, text), SortedIn(table, text);
      && |ss| == |bs|
      && ss[i].name == bs[i].name
      && OffsetIn(table, ss[i].name, text) == Some(bs[i].start)
  {
    FoundInEmpty(table, text);
    SegmentInAt(table, text, i);
    SortedAt(table, text, i);
  }

  /** The whole, unstripped text under the fallback label is returned exactly when no header occurs. */
  lemma {:induction false} SegmentInFallback(table: seq<SectionPattern>, text: string)
    requires DistinctNames(table)
    requires forall k :: 0 <= k < |table| ==> table[k].name != FullDocument
    ensures SegmentIn(table, text) == [Section(FullDocument, text)] <==> !AnyHeader(table, text)
  {
    FoundInEmpty(table, text);
    if AnyHeader(table, text) {
      SegmentInLabelAt(table, text, 0);
      var name := SegmentIn(table, text)[0].name;
      var k :| 0 <= k < |table| && table[k].name == name && Search(table[k].tokens, text) == OffsetIn(table, name, text);
    }
  }

  /** When some header occurs, every span is labelled by a header that occurs and no label repeats. */
  lemma {:induction false} SegmentInLabelsOccur(table: seq<SectionPattern>, text: string)
    requires DistinctNames(table) && AnyHeader(table, text)
    ensures var ss := SegmentIn(table, text);
      && (forall i :: 0 <= i < |ss| ==> OffsetIn(table, ss[i].name, text).Some?)
      && (forall i, j :: 0 <= i < j < |ss| ==> ss[i].name != ss[j].name)
  {
    var ss := SegmentIn(table, text);
    SortedNamesDistinctIn(table, text);
    forall i | 0 <= i < |ss|
      ensures OffsetIn(table, ss[i].name, text).Some?
    {
      SegmentInLabelAt(table, text, i);
    }
    forall i, j | 0 <= i < j < |ss|
      ensures ss[i].name != ss[j].name
    {
      SegmentInLabelAt(table, text, i);
      SegmentInLabelAt(table, text, j);
    }
  }

  /** When some header occurs, a header labels a span exactly when it occurs. */
  lemma {:induction false} SegmentInLabelsComplete(table: seq<SectionPattern>, text: string)
    requires DistinctNames(table) && AnyHeader(table, text)
    ensures forall k :: 0 <= k < |table| ==>
      (Search(table[k].tokens, text).Some? <==> HasSection(SegmentIn(table, text), table[k].name))
  {
    var ss := SegmentIn(table, text);
    var bs := SortedIn(table, text);
    forall k | 0 <= k < |table| && HasSection(ss, table[k].name)
      ensures Search(table[k].tokens, text).Some?
    {
      var i :| 0 <= i < |ss| && ss[i].name == table[k].name;
      SegmentInLabelAt(table, text, i);
      OffsetInAt(table, k, text);
    }
    forall k | 0 <= k < |table| && Search(table[k].tokens, text).Some?
      ensures HasSection(ss, table[k].name)
    {
      SortedCompleteIn(table, text, k);
      var i :| 0 <= i < |bs| && bs[i].name == table[k].name;
      FoundInEmpty(table, text);
      SegmentInAt(table, text, i);
      assert ss[i].name == table[k].name;
    }
  }

  /** When some header occurs, spans come in ascending order of their header's first match. */
  lemma {:induction false} SegmentInOrder(table: seq<SectionPattern>, text: string)
    requires DistinctNames(table) && AnyHeader(table, text)
    ensures OffsetsAscending(table, SegmentIn(table, text), text)
  {
    forall i, j | 0 <= i < j < |SegmentIn(table, text)|
    {
      SegmentInOrderAt(table, text, i, j);
    }
  }

  /** Every span is labelled by a header that occurs, in ascending order of first match. */
  predicate OffsetsAscending(table: seq<SectionPattern>, ss: seq<Section>, text: string) {
    forall i, j :: 0 <= i < j < |ss| ==> MatchesNoLater(table, ss[i], ss[j], text)
  }

  /** Both spans' headers occur, a's first match no later than b's. */
  predicate MatchesNoLater(table: seq<SectionPattern>, a: Section, b: Section, text: string) {
    && OffsetIn(table, a.name, text).Some?
    && OffsetIn(table, b.name, text).Some?
    && OffsetIn(table, a.name, text).value <= OffsetIn(table, b.name, text).value
  }

  lemma {:induction false} SegmentInOrderAt(table: seq<SectionPattern>, text: string, i: nat, j: nat)
    requires DistinctNames(table) && AnyHeader(table, text) && i < j < |SegmentIn(table, text)|
    ensures MatchesNoLater(table, SegmentIn(table, text)[i], SegmentIn(table, text)[j], text)
  {
    var bs := SortedIn(table, text);
    SegmentInLabelAt(table, text, i);
    SegmentInLabelAt(table, text, j);
    assert StartKey(bs[i]) <= StartKey(bs[j]);
  }

  /** When some header occurs, span i is the stripped text from its header's first match to the next span's. */
  lemma {:induction false} SegmentInContentAt(table: seq<SectionPattern>, text: string, i: nat)
    requires DistinctNames(table) && AnyHeader(table, text) && i < |SegmentIn(table, text)|
    ensures var ss := SegmentIn(table, text);
      && OffsetIn(table, ss[i].name, text).Some?
      && (i + 1 < |ss| ==> OffsetIn(table, ss[i + 1].name, text).Some?)
      && var start := OffsetIn(table, ss[i].name, text).value;
         var end := if i + 1 < |ss| then OffsetIn(table, ss[i + 1].name, text).value else |text|;
         start <= end <= |text| && ss[i].content == Strip(text[start..end])
  {
    var ss, bs := SegmentIn(table, text), SortedIn(table, text);
    SegmentInSpanAt(table, text, i);
    FoundInEmpty(table, text);
    SegmentInAt(table, text, i);
    SliceAtContent(text, bs, i);
    var start := OffsetIn(table, ss[i].name, text).value;
    var end := if i + 1 < |ss| then OffsetIn(table, ss[i + 1].name, text).value else |text|;
    assert start == bs[i].start && end == SpanEnd(bs, i, |text|);
    assert ss[i].content == Strip(text[start..end]);
  }

  lemma {:induction false} SegmentInSpanAt(table: seq<SectionPattern>, text: string, i: nat)
    requires DistinctNames(table) && AnyHeader(table, text) && i < |SegmentIn(table, text)|
    ensures var ss, bs := SegmentIn(table, text), SortedIn(table, text);
      && |ss| == |bs|
      && OffsetIn(table, ss[i].name, text) == Some(bs[i].start)
      && (i + 1 < |ss| ==> OffsetIn(table, ss[i + 1].name, text) == Some(bs[i + 1].start))
  {
    var ss, bs := SegmentIn(table, text), SortedIn(table, text);
    assert |ss| == |bs| && OffsetIn(table, ss[i].name, text) == Some(bs[i].start) by {
      SegmentInLabelAt(table, text, i);
    }
    if i + 1 < |ss| {
      assert OffsetIn(table, ss[i + 1].name, text) == Some(bs[i + 1].start) by {
        SegmentInLabelAt(table, text, i + 1);
      }
    }
  }

  /** Span i of ordered boundaries is the stripped substring up to the next boundary, or to the end. */
  lemma SliceAtContent(text: string, bs: seq<Boundary>, i: nat)
    requires Ordered(bs, |text|) && i < |bs|
    ensures bs[i].start <= SpanEnd(bs, i, |text|) <= |text|
    ensures SliceAt(text, bs, i).content == Strip(text[bs[i].start..SpanEnd(bs, i, |text|)])
  {
    SpanWithin(bs, i, |text|);
  }

  /** A span of ordered boundaries lies within the text. */
  lemma SpanWithin(bs: seq<Boundary>, i: nat, len: nat)
    requires Ordered(bs, len) && i < |bs|
    ensures bs[i].start <= SpanEnd(bs, i, len) <= len
  {
    assert bs[i] in bs;
    if i + 1 < |bs| {
      assert StartKey(bs[i]) <= StartKey(bs[i + 1]);
      assert bs[i + 1] in bs;
    }
  }

  // ---------------------------------------------------------------------------
  // The segmentation by the six 10-K headers

  /**
   * `{'full_document': text}`, with text not stripped, is returned exactly
   * when none of the six headers occurs.
   */
  lemma SegmentFallback(text: string)
    ensures Segment(text) == [Section(FullDocument, text)] <==> !AnyHeader(SectionTable, text)
  {
    TableNamesDistinct();
    TableLabelsDistinct();
    SegmentInFallback(SectionTable, text);
  }

  /**
   * When some header occurs, the spans are labelled by exactly the headers
   * that occur, each once: the text before the first header is dropped.
   */
  lemma SegmentLabels(text: string)
    requires AnyHeader(SectionTable, text)
    ensures var ss := Segment(text);
      && (forall i :: 0 <= i < |ss| ==> OffsetOf(ss[i].name, text).Some?)
      && (forall i, j :: 0 <= i < j < |ss| ==> ss[i].name != ss[j].name)
      && (forall k :: 0 <= k < |SectionTable| ==>
            (Search(SectionTable[k].tokens, text).Some? <==> HasSection(ss, SectionTable[k].name)))
  {
    TableNamesDistinct();
    SegmentInLabelsOccur(SectionTable, text);
    SegmentInLabelsComplete(SectionTable, text);
  }

  /** When some header occurs, spans come in ascending order of their header's first match. */
  lemma SegmentOrder(text: string)
    requires AnyHeader(SectionTable, text)
    ensures OffsetsAscending(SectionTable, Segment(text), text)
  {
    TableNamesDistinct();
    SegmentInOrder(SectionTable, text);
  }

  /**
   * When some header occurs, span i is the stripped text from its header's
   * first match up to the next span's header, the last one running to the end.
   */
  lemma SegmentContent(text: string, i: nat)
    requires AnyHeader(SectionTable, text) && i < |Segment(text)|
    ensures var ss := Segment(text);
      && OffsetOf(ss[i].name, text).Some?
      && (i + 1 < |ss| ==> OffsetOf(ss[i + 1].name, text).Some?)
      && var start := OffsetOf(ss[i].name, text).value;
         var end := if i + 1 < |ss| then OffsetOf(ss[i + 1].name, text).value else |text|;
         start <= end <= |text| && ss[i].content == Strip(text[start..end])
  {
    TableNamesDistinct();
    SegmentInContentAt(SectionTable, text, i);
  }
}

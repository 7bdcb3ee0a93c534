/**
 * `Retriever` and `EnhancedRetriever`: the query path on top of the vector
 * store. `retrieve` keeps the hits at or above a similarity threshold;
 * `format_context` renders hits as numbered context blocks; the enhanced
 * variant routes a question to preferred sections by keyword, multiplies
 * the score of hits from those sections by 1.5, and re-ranks.
 */
module Retrieval {
  import opened Wrappers
  import opened Text
  import opened Seqs
  import opened VectorStores

  // ---------------------------------------------------------------------------
  // retrieve: the threshold filter

  /** `[(t, s, m) for t, s, m in hits if s >= threshold]`. */
  function AboveThreshold(hits: seq<Hit>, threshold: real): seq<Hit> {
    if hits == [] then []
    else
      var last := hits[|hits| - 1];
      AboveThreshold(hits[..|hits| - 1], threshold) + (if last.score >= threshold then [last] else [])
  }

  /** The filter keeps the hits it keeps in their order. */
  lemma {:induction false} AboveThresholdInOrder(hits: seq<Hit>, threshold: real)
    ensures IsSubsequence(AboveThreshold(hits, threshold), hits)
  {
    if hits != [] {
      var init, last := hits[..|hits| - 1], hits[|hits| - 1];
      var kept := AboveThreshold(init, threshold);
      AboveThresholdInOrder(init, threshold);
      assert hits[..|hits| - 1] == init;
      if last.score >= threshold {
        assert AboveThreshold(hits, threshold) == kept + [last];
        assert (kept + [last])[..|kept|] == kept;
      } else {
        assert AboveThreshold(hits, threshold) == kept;
      }
    }
  }

  /** The filter keeps every hit scoring at least the threshold as often as it occurs, and no other. */
  lemma {:induction false} AboveThresholdCounts(hits: seq<Hit>, threshold: real)
    ensures forall h ::
      multiset(AboveThreshold(hits, threshold))[h] == if h.score >= threshold then multiset(hits)[h] else 0
  {
    if hits != [] {
      var init, last := hits[..|hits| - 1], hits[|hits| - 1];
      var kept := AboveThreshold(init, threshold);
      AboveThresholdCounts(init, threshold);
      assert multiset(hits) == multiset(init) + multiset{last} by {
        assert hits == init + [last];
      }
      if last.score >= threshold {
        assert AboveThreshold(hits, threshold) == kept + [last];
      } else {
        assert AboveThreshold(hits, threshold) == kept;
      }
    }
  }

  /** Every hit the filter keeps scores at least the threshold. */
  lemma AboveThresholdScores(hits: seq<Hit>, threshold: real)
    ensures forall h :: h in AboveThreshold(hits, threshold) ==> h.score >= threshold
  {
    AboveThresholdCounts(hits, threshold);
    forall h | h in AboveThreshold(hits, threshold)
      ensures h.score >= threshold
    {
      assert multiset(AboveThreshold(hits, threshold))[h] > 0;
    }
  }

  /** Filtering twice with the same threshold is filtering once. */
  lemma {:induction false} AboveThresholdIdempotent(hits: seq<Hit>, threshold: real)
    ensures AboveThreshold(AboveThreshold(hits, threshold), threshold) == AboveThreshold(hits, threshold)
  {
    if hits != [] {
      var init, last := hits[..|hits| - 1], hits[|hits| - 1];
      var kept := AboveThreshold(init, threshold);
      AboveThresholdIdempotent(init, threshold);
      if last.score >= threshold {
        assert (kept + [last])[..|kept|] == kept;
      } else {
        assert kept + [] == kept;
      }
    }
  }

  /** What `retrieve(query, top_k, threshold)` returns on the store's state. */
  function RetrieveOn(st: StoreState, search: (FlatIndex, Vector, int) -> seq<RawHit>, embed: string -> Vector,
                      query: string, topK: int, threshold: real): Result<seq<Hit>, SearchError> {
    match SearchOn(st, search, embed(query), topK)
    case Failure(e) => Failure(e)
    case Success(hits) => Success(AboveThreshold(hits, threshold))
  }

  /** `retrieve` returns no more hits than the index returned rows for k = top_k. */
  lemma RetrieveAtMostRows(st: StoreState, search: (FlatIndex, Vector, int) -> seq<RawHit>, embed: string -> Vector,
                           query: string, topK: int, threshold: real)
    requires RetrieveOn(st, search, embed, query, topK, threshold).Success?
    ensures st.index.Some?
    ensures |RetrieveOn(st, search, embed, query, topK, threshold).value| <= |search(st.index.value, embed(query), topK)|
  {
    var hits := SearchOn(st, search, embed(query), topK).value;
    SearchKeepsRows(st.chunks, st.metadata, search(st.index.value, embed(query), topK));
    AboveThresholdInOrder(hits, threshold);
    SubsequenceLength(AboveThreshold(hits, threshold), hits);
  }

  // ---------------------------------------------------------------------------
  // format_context

  /** `metadata.get('section', 'unknown')`. */
  function SectionOf(m: Metadata): string {
    if "section" in m then m["section"] else "unknown"
  }

  /** `f"[Context {i} - Section: {section}, Relevance: {score:.3f}]\n{text}\n"`. */
  function ContextBlock(i: nat, h: Hit): string {
    "[Context " + NatToString(i) + " - Section: " + SectionOf(h.metadata) + ", Relevance: " + Fixed3(h.score) + "]\n" + h.text + "\n"
  }

  /** The blocks of the hits, numbered from 1. */
  function Blocks(hits: seq<Hit>): (bs: seq<string>)
    ensures |bs| == |hits|
  {
    seq(|hits|, i requires 0 <= i < |hits| => ContextBlock(i + 1, hits[i]))
  }

  /** `format_context(results)`: "" for no results, else the blocks joined by newlines. */
  function FormatContext(hits: seq<Hit>): string {
    if hits == [] then "" else Join(Blocks(hits), "\n")
  }

  /** The context is empty exactly when there are no results. */
  lemma FormatContextEmptyIff(hits: seq<Hit>)
    ensures FormatContext(hits) == "" <==> hits == []
  {
    if hits != [] {
      var bs := Blocks(hits);
      JoinNonEmpty(bs, "\n");
    }
  }

  /** A join whose last part is non-empty is non-empty. */
  lemma {:induction false} JoinNonEmpty(parts: seq<string>, sep: string)
    requires parts != [] && parts[|parts| - 1] != []
    ensures Join(parts, sep) != []
  {
  }

  /** One more hit adds a newline and its block, numbered after the others. */
  lemma FormatContextSnoc(hits: seq<Hit>, h: Hit)
    requires hits != []
    ensures FormatContext(hits + [h]) == FormatContext(hits) + "\n" + ContextBlock(|hits| + 1, h)
  {
    var bs := Blocks(hits + [h]);
    assert bs[..|bs| - 1] == Blocks(hits);
  }

  // ---------------------------------------------------------------------------
  // retrieve_for_question_type: keyword routing

  const RiskKeywords: seq<string> := ["risk", "risk factors", "challenge", "threat"]
  const BusinessKeywords: seq<string> := ["business", "strategy", "model", "product"]
  const FinancialKeywords: seq<string> := ["financial", "revenue", "income", "profit"]

  /** `any(word in s for word in words)`. */
  predicate AnyIn(s: string, words: seq<string>) {
    exists i :: 0 <= i < |words| && Contains(s, words[i])
  }

  /** The preferred sections for a question, or None for general retrieval. */
  function Route(question: string): Option<seq<string>> {
    var q := Lower(question);
    if AnyIn(q, RiskKeywords) then Some(["risk_factors"])
    else if AnyIn(q, BusinessKeywords) then Some(["business"])
    else if AnyIn(q, FinancialKeywords) then Some(["financials", "md_a"])
    else None
  }

  /** "risk factors" never decides the route: every question containing it contains "risk". */
  lemma RiskRouteIff(question: string)
    ensures var q := Lower(question);
      Route(question) == Some(["risk_factors"]) <==>
        Contains(q, "risk") || Contains(q, "challenge") || Contains(q, "threat")
  {
    var q := Lower(question);
    if Contains(q, "risk factors") {
      assert "risk factors" == "risk" + " factors";
      ContainsPrefix(q, "risk", " factors");
    }
    if Contains(q, "risk") {
      assert Contains(q, RiskKeywords[0]);
    }
    if Contains(q, "challenge") {
      assert Contains(q, RiskKeywords[2]);
    }
    if Contains(q, "threat") {
      assert Contains(q, RiskKeywords[3]);
    }
  }

  /**
   * The keyword groups are tried in order: a question routes to business
   * only when no risk keyword occurs, and to the financial sections only
   * when no risk or business keyword does.
   */
  lemma RoutePriority(question: string)
    ensures var q := Lower(question);
      && (Route(question) == Some(["business"]) <==> !AnyIn(q, RiskKeywords) && AnyIn(q, BusinessKeywords))
      && (Route(question) == Some(["financials", "md_a"]) <==>
            !AnyIn(q, RiskKeywords) && !AnyIn(q, BusinessKeywords) && AnyIn(q, FinancialKeywords))
      && (Route(question).None? <==>
            !AnyIn(q, RiskKeywords) && !AnyIn(q, BusinessKeywords) && !AnyIn(q, FinancialKeywords))
  {
    assert ["risk_factors"] != ["business"] && ["risk_factors"] != ["financials", "md_a"];
    assert ["business"] != ["financials", "md_a"];
  }

  // ---------------------------------------------------------------------------
  // retrieve_with_section_boost

  /** The boost a hit from a preferred section gets. */
  const BoostFactor: real := 1.5

  /** `metadata.get('section') in preferred`: a hit without a section is never preferred. */
  predicate Preferred(h: Hit, preferred: seq<string>) {
    "section" in h.metadata && h.metadata["section"] in preferred
  }

  /** The hit with its score multiplied by the boost when its section is preferred. */
  function Boosted(h: Hit, preferred: seq<string>): Hit {
    if Preferred(h, preferred) then h.(score := h.score * BoostFactor) else h
  }

  /** Every hit, boosted or not, in the search's order. */
  function BoostAll(hits: seq<Hit>, preferred: seq<string>): (bs: seq<Hit>)
    ensures |bs| == |hits|
  {
    seq(|hits|, i requires 0 <= i < |hits| => Boosted(hits[i], preferred))
  }

  /** The sort key of `sort(key=score, reverse=True)`: ascending in the negated score. */
  function NegScore(h: Hit): real {
    -h.score
  }

  /**
   * The result of `retrieve_with_section_boost` on the search results hits:
   * the first top_k of them when there is no preference; otherwise the
   * boosted hits, stably sorted by descending score, first top_k.
   */
  function SectionBoost(hits: seq<Hit>, topK: int, preferred: Option<seq<string>>): seq<Hit> {
    if preferred.None? || preferred.value == [] then PyTake(hits, topK)
    else PyTake(SortBy(BoostAll(hits, preferred.value), NegScore), topK)
  }

  /**
   * Boosting changes only scores, and only of preferred hits; a preferred
   * hit with a negative score is pushed further down, not up.
   */
  lemma BoostedSpec(h: Hit, preferred: seq<string>)
    ensures Boosted(h, preferred).text == h.text && Boosted(h, preferred).metadata == h.metadata
    ensures Boosted(h, preferred).score == if Preferred(h, preferred) then 1.5 * h.score else h.score
    ensures Preferred(h, preferred) && h.score < 0.0 ==> Boosted(h, preferred).score < h.score
    ensures Preferred(h, preferred) && h.score > 0.0 ==> Boosted(h, preferred).score > h.score
  {
  }

  /**
   * With preferred sections, the result is in non-increasing order of
   * boosted score, holds min(top_k, n) of the boosted hits for a
   * non-negative top_k, and each of them as often as it was boosted.
   */
  lemma SectionBoostRanked(hits: seq<Hit>, topK: int, preferred: seq<string>)
    requires preferred != []
    ensures var r := SectionBoost(hits, topK, Some(preferred));
      && (forall i, j :: 0 <= i < j < |r| ==> r[i].score >= r[j].score)
      && (topK >= 0 ==> |r| == if topK <= |hits| then topK else |hits|)
      && multiset(r) <= multiset(BoostAll(hits, preferred))
  {
    var sorted := SortBy(BoostAll(hits, preferred), NegScore);
    var r := SectionBoost(hits, topK, Some(preferred));
    assert r == sorted[..|r|];
    forall i, j | 0 <= i < j < |r|
      ensures r[i].score >= r[j].score
    {
      assert NegScore(sorted[i]) <= NegScore(sorted[j]);
    }
    assert sorted == r + sorted[|r|..];
  }

  /** Hits with equal boosted score keep the order the search returned them in. */
  lemma SectionBoostStable(hits: seq<Hit>, preferred: seq<string>, v: real)
    ensures WithKey(SortBy(BoostAll(hits, preferred), NegScore), NegScore, v) == WithKey(BoostAll(hits, preferred), NegScore, v)
  {
    SortByStable(BoostAll(hits, preferred), NegScore, v);
  }

  /**
   * The ranking is the only one possible: any arrangement of the boosted
   * hits in descending score that keeps ties in search order is it.
   */
  lemma SectionBoostUnique(hits: seq<Hit>, preferred: seq<string>, r: seq<Hit>)
    requires forall i, j :: 0 <= i < j < |r| ==> r[i].score >= r[j].score
    requires forall v :: WithKey(r, NegScore, v) == WithKey(BoostAll(hits, preferred), NegScore, v)
    ensures r == SortBy(BoostAll(hits, preferred), NegScore)
  {
    assert SortedBy(r, NegScore);
    SortByCharacterized(BoostAll(hits, preferred), r, NegScore);
  }

  /** Without a preference, and with a top_k that covers them, every hit is returned unchanged: no threshold applies. */
  lemma NoPreferenceKeepsAll(hits: seq<Hit>, topK: int)
    requires topK >= |hits|
    ensures SectionBoost(hits, topK, None) == hits
    ensures SectionBoost(hits, topK, Some([])) == hits
  {
  }

  /** With a preference and a top_k that covers them, every boosted hit is returned, whatever its score. */
  lemma PreferenceKeepsAll(hits: seq<Hit>, topK: int, preferred: seq<string>)
    requires preferred != [] && topK >= |hits|
    ensures multiset(SectionBoost(hits, topK, Some(preferred))) == multiset(BoostAll(hits, preferred))
  {
    var sorted := SortBy(BoostAll(hits, preferred), NegScore);
    assert sorted[..|sorted|] == sorted;
  }

  /** What `retrieve_with_section_boost(query, top_k, preferred)` returns; the search asks for 3 * top_k rows. */
  function SectionBoostOn(st: StoreState, search: (FlatIndex, Vector, int) -> seq<RawHit>, embed: string -> Vector,
                          query: string, topK: int, preferred: Option<seq<string>>): Result<seq<Hit>, SearchError> {
    match SearchOn(st, search, embed(query), topK * 3)
    case Failure(e) => Failure(e)
    case Success(hits) => Success(SectionBoost(hits, topK, preferred))
  }

  // ---------------------------------------------------------------------------
  // The retriever

  /**
   * A retriever over a vector store. `embed` is the sentence-embedding
   * model's `encode` on one query. The methods of `EnhancedRetriever` are
   * methods of this class.
   */
  class Retriever {
    const store: VectorStore
    const embed: string -> Vector

    constructor(store: VectorStore, embed: string -> Vector)
      ensures this.store == store && this.embed == embed
    {
      this.store := store;
      this.embed := embed;
    }

    /** `retrieve(query, top_k, similarity_threshold)`. */
    method Retrieve(query: string, topK: int, threshold: real) returns (r: Result<seq<Hit>, SearchError>)
      ensures r == RetrieveOn(store.State(), store.search, embed, query, topK, threshold)
    {
      var results := store.SimilaritySearch(embed(query), topK);
      if results.Failure? {
        return Failure(results.error);
      }
      r := Success(AboveThreshold(results.value, threshold));
    }

    /** `format_context(results)`: the blocks are built in a loop, then joined. */
    method FormatContextOf(results: seq<Hit>) returns (context: string)
      ensures context == FormatContext(results)
    {
      if results == [] {
        return "";
      }
      var parts: seq<string> := [];
      for i := 0 to |results|
        invariant parts == Blocks(results[..i])
      {
        assert Blocks(results[..i + 1]) == Blocks(results[..i]) + [ContextBlock(i + 1, results[i])];
        parts := parts + [ContextBlock(i + 1, results[i])];
      }
      assert results[..|results|] == results;
      context := Join(parts, "\n");
    }

    /** `retrieve_for_question_type(question, top_k)`: route by keywords, then boost. */
    method RetrieveForQuestionType(question: string, topK: int) returns (r: Result<seq<Hit>, SearchError>)
      ensures r == SectionBoostOn(store.State(), store.search, embed, question, topK, Route(question))
    {
      var questionLower := Lower(question);
      var preferred: Option<seq<string>>;
      if AnyIn(questionLower, RiskKeywords) {
        preferred := Some(["risk_factors"]);
      } else if AnyIn(questionLower, BusinessKeywords) {
        preferred := Some(["business"]);
      } else if AnyIn(questionLower, FinancialKeywords) {
        preferred := Some(["financials", "md_a"]);
      } else {
        preferred := None;
      }
      r := RetrieveWithSectionBoost(question, topK, preferred);
    }

    /** `retrieve_with_section_boost(query, top_k, preferred_sections)`. */
    method RetrieveWithSectionBoost(query: string, topK: int, preferred: Option<seq<string>>) returns (r: Result<seq<Hit>, SearchError>)
      ensures r == SectionBoostOn(store.State(), store.search, embed, query, topK, preferred)
    {
      var found := store.SimilaritySearch(embed(query), topK * 3);
      if found.Failure? {
        return Failure(found.error);
      }
      var results := found.value;
      if preferred.None? || preferred.value == [] {
        return Success(PyTake(results, topK));
      }
      var boosted := BoostScores(results, preferred.value);
      boosted := SortBy(boosted, NegScore);
      r := Success(PyTake(boosted, topK));
    }

    /** The boosting loop: each hit from a preferred section has its score multiplied by 1.5. */
    method BoostScores(results: seq<Hit>, preferred: seq<string>) returns (boosted: seq<Hit>)
      ensures boosted == BoostAll(results, preferred)
    {
      boosted := [];
      for i := 0 to |results|
        invariant |boosted| == i
        invariant forall j :: 0 <= j < i ==> boosted[j] == Boosted(results[j], preferred)
      {
        var h := results[i];
        var boostedScore := h.score;
        if "section" in h.metadata && h.metadata["section"] in preferred {
          boostedScore := boostedScore * 1.5;
        }
        boosted := boosted + [Hit(h.text, boostedScore, h.metadata)];
      }
    }
  }
}

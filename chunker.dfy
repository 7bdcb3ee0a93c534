/**
 * The sentence-aligned chunking behind `TextProcessor.split_into_chunks`, as
 * functions: the sentence splitter `re.split(r'(?<=[.!?])\s+', text)`, the
 * sentence buffers the accumulation loop fills against a word budget, and the
 * chunk records made from them.
 */
module Chunking {
  import opened Text
  import opened Seqs

  // ---------------------------------------------------------------------------
  // re.split(r'(?<=[.!?])\s+', text)

  predicate IsTerminal(c: char) {
    c == '.' || c == '!' || c == '?'
  }

  /** A match of `(?<=[.!?])\s+` starts at offset i of t. */
  predicate SplitAt(t: string, i: int) {
    0 < i < |t| && IsTerminal(t[i - 1]) && IsSpace(t[i])
  }

  /** The first offset at or after i where a separator starts, or |t| if there is none. */
  function NextSplit(t: string, i: nat): (r: nat)
    requires i <= |t|
    ensures i <= r <= |t|
    ensures r < |t| ==> SplitAt(t, r)
    ensures forall j :: i <= j < r ==> !SplitAt(t, j)
    decreases |t| - i
  {
    if i == |t| || SplitAt(t, i) then i else NextSplit(t, i + 1)
  }

  /**
   * The sentences of t: the pieces between the maximal whitespace runs that
   * follow a `.`, `!` or `?`. The separators are dropped; the first piece
   * keeps any leading whitespace, and a trailing separator leaves a last,
   * empty piece.
   */
  function SplitSentences(t: string): (ss: seq<string>)
    ensures |ss| >= 1
    decreases |t|
  {
    var p := NextSplit(t, 0);
    if p == |t| then [t]
    else
      var q := p + LeadingSpace(t[p..]);
      [t[..p]] + SplitSentences(t[q..])
  }

  /** No separator occurs inside s. */
  predicate Unsplit(s: string) {
    forall j :: 0 < j < |s| ==> !SplitAt(s, j)
  }

  lemma {:induction false} WordsOfAllCons(a: string, rest: seq<string>)
    ensures WordsOfAll([a] + rest) == Words(a) + WordsOfAll(rest)
    decreases |rest|
  {
    if rest != [] {
      var init := rest[..|rest| - 1];
      WordsOfAllCons(a, init);
      assert ([a] + rest)[..|rest|] == [a] + init;
    }
  }

  /** The whitespace run a separator consumes. */
  lemma {:induction false} SeparatorRun(t: string, p: nat)
    requires p < |t|
    ensures var q := p + LeadingSpace(t[p..]);
      p <= q <= |t| && AllSpace(t[p..q]) && (q < |t| ==> !IsSpace(t[q]))
  {
    var q := p + LeadingSpace(t[p..]);
    forall i | 0 <= i < q - p ensures IsSpace(t[p..q][i]) {
      assert t[p..q][i] == t[p..][i];
    }
    if q < |t| {
      assert t[q] == t[p..][q - p];
    }
  }

  /** Cutting at a separator keeps the words on both sides. */
  lemma {:induction false} WordsAtSeparator(t: string, p: nat, q: nat)
    requires SplitAt(t, p) && q == p + LeadingSpace(t[p..])
    ensures Words(t) == Words(t[..p]) + Words(t[q..])
  {
    assert p < q <= |t| && AllSpace(t[p..q]) by {
      SeparatorRun(t, p);
      assert t[p..][0] == t[p];
    }
    WordsAcrossSpace(t, p, q);
  }

  /** Cutting out a run of whitespace that ends a word loses no word. */
  lemma WordsAcrossSpace(t: string, p: nat, q: nat)
    requires p < q <= |t| && AllSpace(t[p..q])
    ensures Words(t) == Words(t[..p]) + Words(t[q..])
  {
    var a, w, c := t[..p], t[p..q], t[q..];
    assert IsSpace((w + c)[0]) by {
      assert (w + c)[0] == w[0];
    }
    CutThree(t, p, q);
    WordsAppend(a, w + c);
    WordsSkipSpace(w, c);
  }

  /** Splitting into sentences loses and reorders no word: `split()` of the pieces is `split()` of t. */
  lemma {:induction false} SentencesKeepWords(t: string)
    ensures WordsOfAll(SplitSentences(t)) == Words(t)
    decreases |t|
  {
    if NextSplit(t, 0) < |t| {
      var p, q := FirstSentence(t);
      var rest := SplitSentences(t[q..]);
      SentencesKeepWords(t[q..]);
      SentencesKeepWordsStep(t, p, q, rest);
      assert SplitSentences(t) == [t[..p]] + rest;
    } else {
      SingleSentenceWords(t);
    }
  }

  /** The first sentence's words, then those of the rest, are the words of t. */
  lemma SentencesKeepWordsStep(t: string, p: nat, q: nat, rest: seq<string>)
    requires SplitAt(t, p) && q == p + LeadingSpace(t[p..])
    requires WordsOfAll(rest) == Words(t[q..])
    ensures WordsOfAll([t[..p]] + rest) == Words(t)
  {
    WordsOfAllCons(t[..p], rest);
    WordsAtSeparator(t, p, q);
  }

  /** Text without a separator is one sentence, with all the words of t. */
  lemma SingleSentenceWords(t: string)
    requires NextSplit(t, 0) == |t|
    ensures WordsOfAll(SplitSentences(t)) == Words(t)
  {
    assert SplitSentences(t) == [t];
    WordsOfAllCons(t, []);
  }

  /** Every sentence but the last ends with `.`, `!` or `?`. */
  predicate Terminated(ss: seq<string>) {
    forall k :: 0 <= k < |ss| - 1 ==> ss[k] != [] && IsTerminal(ss[k][|ss[k]| - 1])
  }

  predicate AllUnsplit(ss: seq<string>) {
    forall k :: 0 <= k < |ss| ==> Unsplit(ss[k])
  }

  /** Every sentence but the first starts with a non-whitespace character. */
  predicate Trimmed(ss: seq<string>) {
    forall k :: 0 < k < |ss| && ss[k] != [] ==> !IsSpace(ss[k][0])
  }

  /** The first sentence is a prefix of t. */
  lemma {:induction false} SplitSentencesHead(t: string)
    ensures var s := SplitSentences(t)[0]; |s| <= |t| && s == t[..|s|]
  {
  }

  lemma {:induction false} TerminatedCons(a: string, rest: seq<string>)
    requires a != [] && IsTerminal(a[|a| - 1]) && Terminated(rest)
    ensures Terminated([a] + rest)
  {
    var ss := [a] + rest;
    forall k | 0 < k < |ss| - 1
      ensures ss[k] != [] && IsTerminal(ss[k][|ss[k]| - 1])
    {
      assert ss[k] == rest[k - 1];
    }
  }

  lemma {:induction false} UnsplitCons(a: string, rest: seq<string>)
    requires Unsplit(a) && AllUnsplit(rest)
    ensures AllUnsplit([a] + rest)
  {
    var ss := [a] + rest;
    forall k | 0 < k < |ss|
      ensures Unsplit(ss[k])
    {
      assert ss[k] == rest[k - 1];
    }
  }

  lemma {:induction false} TrimmedCons(a: string, rest: seq<string>)
    requires Trimmed(rest) && (rest != [] && rest[0] != [] ==> !IsSpace(rest[0][0]))
    ensures Trimmed([a] + rest)
  {
    var ss := [a] + rest;
    forall k | 0 < k < |ss| && ss[k] != []
      ensures !IsSpace(ss[k][0])
    {
      assert ss[k] == rest[k - 1];
    }
  }

  lemma {:induction false} FirstSentenceStart(u: string)
    ensures SplitSentences(u)[0] != [] ==> u != [] && SplitSentences(u)[0][0] == u[0]
  {
    SplitSentencesHead(u);
  }

  /** Every sentence but the last ends with `.`, `!` or `?`. */
  lemma {:induction false} SentencesTerminated(t: string)
    ensures Terminated(SplitSentences(t))
    decreases |t|
  {
    if NextSplit(t, 0) < |t| {
      var p, q := FirstSentence(t);
      SentencesTerminated(t[q..]);
      TerminatedCons(t[..p], SplitSentences(t[q..]));
    } else {
      SingleSentenceTerminated(t);
    }
  }

  /** Text without a separator is one sentence, which nothing has to end. */
  lemma SingleSentenceTerminated(t: string)
    requires NextSplit(t, 0) == |t|
    ensures Terminated(SplitSentences(t))
  {
    assert SplitSentences(t) == [t];
  }

  /**
   * Before the first separator t[p..q] comes the first sentence t[..p],
   * which ends with `.`, `!` or `?`.
   */
  lemma {:induction false} FirstSentence(t: string) returns (p: nat, q: nat)
    requires NextSplit(t, 0) < |t|
    ensures p == NextSplit(t, 0) && q == p + LeadingSpace(t[p..])
    ensures 0 < p < q <= |t| && SplitAt(t, p)
    ensures SplitSentences(t) == [t[..p]] + SplitSentences(t[q..])
    ensures t[..p] != [] && IsTerminal(t[..p][p - 1])
  {
    p := NextSplit(t, 0);
    q := p + LeadingSpace(t[p..]);
    assert t[..p][p - 1] == t[p - 1];
  }

  /** No separator is left inside a sentence. */
  lemma {:induction false} SentencesUnsplit(t: string)
    ensures AllUnsplit(SplitSentences(t))
    decreases |t|
  {
    if NextSplit(t, 0) == |t| {
      assert Unsplit(t);
    } else {
      var p, q := FirstSentence(t);
      SentencesUnsplit(t[q..]);
      assert Unsplit(t[..p]) by {
        forall j | 0 < j < p ensures !SplitAt(t[..p], j) {
          assert !SplitAt(t, j);
        }
      }
      UnsplitCons(t[..p], SplitSentences(t[q..]));
    }
  }

  /** Every sentence but the first starts with a non-whitespace character: each separator was taken whole. */
  lemma {:induction false} SentencesTrimmed(t: string)
    ensures Trimmed(SplitSentences(t))
    decreases |t|
  {
    if NextSplit(t, 0) < |t| {
      var p, q := FirstSentence(t);
      var rest := SplitSentences(t[q..]);
      SentencesTrimmed(t[q..]);
      SeparatorRun(t, p);
      FirstSentenceStart(t[q..]);
      if rest[0] != [] {
        assert t[q..][0] == t[q];
      }
      TrimmedCons(t[..p], rest);
    }
  }

  // ---------------------------------------------------------------------------
  // The accumulation loop

  /** The loop's state: the buffers emitted so far and the one being filled. */
  datatype Accum = Accum(emitted: seq<seq<string>>, current: seq<string>)

  /**
   * `buffer[max(0, len(buffer) - overlap):]`: the last min(overlap, |buffer|)
   * sentences, none when overlap is not positive.
   */
  function Carry(b: seq<string>, overlap: int): (c: seq<string>)
    ensures |c| == (if overlap <= 0 then 0 else if overlap < |b| then overlap else |b|)
    ensures c == b[|b| - |c|..]
  {
    var start := if |b| - overlap > 0 then |b| - overlap else 0;
    if start <= |b| then b[start..] else []
  }

  /**
   * One iteration on sentence s: when the buffer is non-empty and s would
   * push its word count past size, the buffer is emitted and a new one starts
   * with its carried-over tail; s is then appended.
   */
  function Step(acc: Accum, s: string, size: int, overlap: int): Accum {
    if TotalWords(acc.current) + WordCount(s) > size && acc.current != [] then
      Accum(acc.emitted + [acc.current], Carry(acc.current, overlap) + [s])
    else
      Accum(acc.emitted, acc.current + [s])
  }

  /** The loop's state after the sentences ss. */
  function Run(ss: seq<string>, size: int, overlap: int): Accum {
    if ss == [] then Accum([], [])
    else Step(Run(ss[..|ss| - 1], size, overlap), ss[|ss| - 1], size, overlap)
  }

  /** One more sentence is one more step. */
  lemma RunSnoc(ss: seq<string>, s: string, size: int, overlap: int)
    ensures Run(ss + [s], size, overlap) == Step(Run(ss, size, overlap), s, size, overlap)
  {
    assert (ss + [s])[..|ss|] == ss;
  }

  /** Every buffer the loop turns into a chunk, the final non-empty one included. */
  function Buffers(ss: seq<string>, size: int, overlap: int): seq<seq<string>> {
    var acc := Run(ss, size, overlap);
    if acc.current == [] then acc.emitted else acc.emitted + [acc.current]
  }

  // ---------------------------------------------------------------------------
  // What the buffers are

  /** b without its first n sentences (none left when n is too large). */
  function Drop(b: seq<string>, n: nat): seq<string> {
    if n <= |b| then b[n..] else []
  }

  /** The sentences the buffers hold, each carried-over tail counted once. */
  function Stitch(bufs: seq<seq<string>>, overlap: int): seq<string> {
    if |bufs| == 0 then []
    else if |bufs| == 1 then bufs[0]
    else Stitch(bufs[..|bufs| - 1], overlap) + Drop(bufs[|bufs| - 1], |Carry(bufs[|bufs| - 2], overlap)|)
  }

  /**
   * b follows a: it starts with a's carried-over tail, adds at least one
   * sentence, and its first new sentence is the one that did not fit in a.
   */
  predicate Linked(a: seq<string>, b: seq<string>, size: int, overlap: int) {
    var c := Carry(a, overlap);
    && |c| < |b|
    && b[..|c|] == c
    && TotalWords(a) + WordCount(b[|c|]) > size
  }

  predicate AllLinked(bufs: seq<seq<string>>, size: int, overlap: int) {
    forall k :: 0 <= k < |bufs| - 1 ==> Linked(bufs[k], bufs[k + 1], size, overlap)
  }

  /** Where buffer k's own sentences start: after the tail carried over from buffer k - 1. */
  function FreshStart(bufs: seq<seq<string>>, k: nat, overlap: int): nat
    requires k < |bufs|
  {
    if k == 0 then 0 else |Carry(bufs[k - 1], overlap)|
  }

  /**
   * Only the first sentence added to a buffer may break the budget: a buffer
   * holding more than one sentence beyond its first f has at most size words.
   */
  predicate Budgeted(b: seq<string>, f: nat, size: int) {
    |b| > f + 1 ==> TotalWords(b) <= size
  }

  predicate AllBudgeted(bufs: seq<seq<string>>, size: int, overlap: int) {
    forall k :: 0 <= k < |bufs| ==> Budgeted(bufs[k], FreshStart(bufs, k, overlap), size)
  }

  predicate NoneEmpty(bufs: seq<seq<string>>) {
    forall k :: 0 <= k < |bufs| ==> bufs[k] != []
  }

  /** The loop keeps its buffers stitched to the input, linked, within budget and non-empty. */
  predicate RunInvariant(ss: seq<string>, acc: Accum, size: int, overlap: int) {
    var bufs := acc.emitted + [acc.current];
    && (ss == [] ==> acc == Accum([], []))
    && (ss != [] ==> acc.current != [])
    && (ss != [] ==> Stitch(bufs, overlap) == ss)
    && (ss != [] ==> AllLinked(bufs, size, overlap))
    && (ss != [] ==> AllBudgeted(bufs, size, overlap))
    && NoneEmpty(acc.emitted)
  }

  lemma {:induction false} StitchLast(bufs: seq<seq<string>>, b: seq<string>, overlap: int)
    requires bufs != []
    ensures Stitch(bufs + [b], overlap) == Stitch(bufs, overlap) + Drop(b, |Carry(bufs[|bufs| - 1], overlap)|)
  {
    assert (bufs + [b])[..|bufs|] == bufs;
  }

  lemma DropSnoc(b: seq<string>, s: string, n: nat)
    requires n <= |b|
    ensures Drop(b + [s], n) == Drop(b, n) + [s]
  {
    assert (b + [s])[n..] == b[n..] + [s];
  }

  /** Appending a sentence to the last buffer appends it to the stitched sequence. */
  lemma {:induction false} StitchGrow(bufs: seq<seq<string>>, cur: seq<string>, s: string, overlap: int)
    requires bufs != [] ==> |Carry(bufs[|bufs| - 1], overlap)| <= |cur|
    ensures Stitch(bufs + [cur + [s]], overlap) == Stitch(bufs + [cur], overlap) + [s]
  {
    if bufs == [] {
      assert bufs + [cur + [s]] == [cur + [s]];
      assert bufs + [cur] == [cur];
    } else {
      StitchLast(bufs, cur + [s], overlap);
      StitchLast(bufs, cur, overlap);
      var n := |Carry(bufs[|bufs| - 1], overlap)|;
      DropSnoc(cur, s, n);
      var front, tail := Stitch(bufs, overlap), Drop(cur, n);
      assert front + (tail + [s]) == (front + tail) + [s];
    }
  }

  lemma {:induction false} AllLinkedSnoc(bufs: seq<seq<string>>, b: seq<string>, size: int, overlap: int)
    requires AllLinked(bufs, size, overlap)
    requires bufs != [] ==> Linked(bufs[|bufs| - 1], b, size, overlap)
    ensures AllLinked(bufs + [b], size, overlap)
  {
    var bufs' := bufs + [b];
    forall k | 0 <= k < |bufs'| - 1
      ensures Linked(bufs'[k], bufs'[k + 1], size, overlap)
    {
      assert bufs'[k] == bufs[k];
      if k + 1 < |bufs| {
        assert bufs'[k + 1] == bufs[k + 1];
        assert Linked(bufs[k], bufs[k + 1], size, overlap);
      } else {
        assert bufs'[k + 1] == b && k == |bufs| - 1;
        assert Linked(bufs[|bufs| - 1], b, size, overlap);
      }
    }
    assert AllLinked(bufs', size, overlap);
  }

  lemma {:induction false} AllLinkedInit(bufs: seq<seq<string>>, size: int, overlap: int)
    requires AllLinked(bufs, size, overlap) && bufs != []
    ensures AllLinked(bufs[..|bufs| - 1], size, overlap)
  {
    var init := bufs[..|bufs| - 1];
    forall k | 0 <= k < |init| - 1
      ensures Linked(init[k], init[k + 1], size, overlap)
    {
      assert init[k] == bufs[k] && init[k + 1] == bufs[k + 1];
    }
  }

  lemma {:induction false} AllBudgetedSnoc(bufs: seq<seq<string>>, b: seq<string>, size: int, overlap: int)
    requires AllBudgeted(bufs, size, overlap)
    requires Budgeted(b, if bufs == [] then 0 else |Carry(bufs[|bufs| - 1], overlap)|, size)
    ensures AllBudgeted(bufs + [b], size, overlap)
  {
    var bufs' := bufs + [b];
    forall k | 0 <= k < |bufs'|
      ensures Budgeted(bufs'[k], FreshStart(bufs', k, overlap), size)
    {
      if k < |bufs| {
        assert bufs'[k] == bufs[k];
        if k > 0 {
          assert bufs'[k - 1] == bufs[k - 1];
        }
        assert FreshStart(bufs', k, overlap) == FreshStart(bufs, k, overlap);
        assert Budgeted(bufs[k], FreshStart(bufs, k, overlap), size);
      } else if k > 0 {
        assert bufs'[k] == b;
        assert bufs'[k - 1] == bufs[|bufs| - 1];
        assert FreshStart(bufs', k, overlap) == |Carry(bufs[|bufs| - 1], overlap)|;
      } else {
        assert bufs'[k] == b && bufs == [];
        assert FreshStart(bufs', k, overlap) == 0;
      }
    }
    assert AllBudgeted(bufs', size, overlap);
  }

  lemma {:induction false} AllBudgetedInit(bufs: seq<seq<string>>, size: int, overlap: int)
    requires AllBudgeted(bufs, size, overlap) && bufs != []
    ensures AllBudgeted(bufs[..|bufs| - 1], size, overlap)
  {
    var init := bufs[..|bufs| - 1];
    forall k | 0 <= k < |init|
      ensures Budgeted(init[k], FreshStart(init, k, overlap), size)
    {
      assert init[k] == bufs[k];
      assert FreshStart(init, k, overlap) == FreshStart(bufs, k, overlap);
    }
  }

  /** Appending to a buffer keeps it linked to its predecessor. */
  lemma {:induction false} LinkedGrow(a: seq<string>, b: seq<string>, s: string, size: int, overlap: int)
    requires Linked(a, b, size, overlap)
    ensures Linked(a, b + [s], size, overlap)
  {
    var c := Carry(a, overlap);
    assert (b + [s])[..|c|] == b[..|c|];
    assert (b + [s])[|c|] == b[|c|];
  }

  /** The emitting iteration keeps the invariant. */
  lemma {:induction false} RunStepEmit(ss: seq<string>, acc: Accum, s: string, size: int, overlap: int)
    requires RunInvariant(ss, acc, size, overlap)
    requires TotalWords(acc.current) + WordCount(s) > size && acc.current != []
    ensures RunInvariant(ss + [s], Step(acc, s, size, overlap), size, overlap)
  {
    var bufs := acc.emitted + [acc.current];
    var c := Carry(acc.current, overlap);
    assert Step(acc, s, size, overlap).emitted + [Step(acc, s, size, overlap).current] == bufs + [c + [s]];
    StitchLast(bufs, c + [s], overlap);
    assert Drop(c + [s], |c|) == [s];
    assert (c + [s])[..|c|] == c && (c + [s])[|c|] == s;
    AllLinkedSnoc(bufs, c + [s], size, overlap);
    AllBudgetedSnoc(bufs, c + [s], size, overlap);
    assert NoneEmpty(acc.emitted + [acc.current]);
  }

  /** The appending iteration keeps the invariant. */
  lemma {:induction false} RunStepAppend(ss: seq<string>, acc: Accum, s: string, size: int, overlap: int)
    requires RunInvariant(ss, acc, size, overlap)
    requires !(TotalWords(acc.current) + WordCount(s) > size && acc.current != [])
    ensures RunInvariant(ss + [s], Step(acc, s, size, overlap), size, overlap)
  {
    var e := acc.emitted;
    var bufs := e + [acc.current];
    var cur' := acc.current + [s];
    assert Step(acc, s, size, overlap) == Accum(e, cur');
    if ss == [] {
      assert acc == Accum([], []);
      assert cur' == [s];
      assert e + [cur'] == [[s]];
    } else {
      assert bufs[..|bufs| - 1] == e;
      AllLinkedInit(bufs, size, overlap);
      AllBudgetedInit(bufs, size, overlap);
      var f := if e == [] then 0 else |Carry(e[|e| - 1], overlap)|;
      if e != [] {
        assert Linked(bufs[|e| - 1], bufs[|e|], size, overlap);
        LinkedGrow(e[|e| - 1], acc.current, s, size, overlap);
      }
      AllLinkedSnoc(e, cur', size, overlap);
      StitchGrow(e, acc.current, s, overlap);
      TotalWordsAppend(acc.current, [s]);
      assert [s][..0] == [];
      assert Budgeted(cur', f, size);
      AllBudgetedSnoc(e, cur', size, overlap);
    }
  }

  lemma {:induction false} RunStep(ss: seq<string>, size: int, overlap: int)
    requires ss != []
    requires RunInvariant(ss[..|ss| - 1], Run(ss[..|ss| - 1], size, overlap), size, overlap)
    ensures RunInvariant(ss, Run(ss, size, overlap), size, overlap)
  {
    var init, s := ss[..|ss| - 1], ss[|ss| - 1];
    var acc := Run(init, size, overlap);
    SnocLast(ss);
    RunSnoc(init, s, size, overlap);
    if TotalWords(acc.current) + WordCount(s) > size && acc.current != [] {
      RunStepEmit(init, acc, s, size, overlap);
    } else {
      RunStepAppend(init, acc, s, size, overlap);
    }
    assert RunInvariant(init + [s], Step(acc, s, size, overlap), size, overlap);
  }

  lemma {:induction false} RunKeepsInvariant(ss: seq<string>, size: int, overlap: int)
    ensures RunInvariant(ss, Run(ss, size, overlap), size, overlap)
    decreases |ss|
  {
    if ss != [] {
      RunKeepsInvariant(ss[..|ss| - 1], size, overlap);
      RunStep(ss, size, overlap);
    }
  }

  /**
   * The buffers made from sentences ss: there is one exactly when there is a
   * sentence, none is empty, together they hold every sentence once and in
   * order, consecutive buffers overlap by the carried-over tail, a buffer is
   * closed only when the next sentence would have broken the budget, and only
   * a buffer's first new sentence may break it.
   */
  lemma {:induction false} BuffersSpec(ss: seq<string>, size: int, overlap: int)
    ensures var bufs := Buffers(ss, size, overlap);
      && (bufs == [] <==> ss == [])
      && NoneEmpty(bufs)
      && Stitch(bufs, overlap) == ss
      && AllLinked(bufs, size, overlap)
      && AllBudgeted(bufs, size, overlap)
  {
    RunKeepsInvariant(ss, size, overlap);
    var acc := Run(ss, size, overlap);
    var bufs := Buffers(ss, size, overlap);
    if ss != [] {
      assert bufs == acc.emitted + [acc.current];
      assert NoneEmpty(bufs) by {
        forall k | 0 <= k < |bufs| ensures bufs[k] != [] {
          if k < |acc.emitted| {
            assert bufs[k] == acc.emitted[k];
          }
        }
      }
    }
  }

  /** `"a b.".split()` has two words. */
  lemma {:induction false} TwoWordSentence()
    ensures WordCount("a b.") == 2
  {
    assert "b."[1..] == "." && "."[1..] == "";
    assert WordEnd("b.") == 2;
    assert "b."[..2] == "b." && "b."[2..] == "";
    assert Words("b.") == ["b."];
    assert " b."[1..] == "b.";
    assert Words(" b.") == ["b."];
    assert "a b."[1..] == " b.";
    assert WordEnd("a b.") == 1;
    assert "a b."[..1] == "a" && "a b."[1..] == " b.";
    assert Words("a b.") == ["a", "b."];
  }

  /** `"c.".split()` has one word. */
  lemma {:induction false} OneWordSentence()
    ensures WordCount("c.") == 1
  {
    assert "c."[1..] == "." && "."[1..] == "";
    assert WordEnd("c.") == 2;
    assert "c."[..2] == "c." && "c."[2..] == "";
    assert Words("c.") == ["c."];
  }

  /**
   * Sentence overlap is counted in sentences, so a chunk can exceed the word
   * budget even after its first sentence: with budget 1 and overlap 1,
   * "a b." is emitted alone and "a b. c." follows it with three words.
   */
  lemma {:induction false} OverlapCanExceedBudget()
    ensures Buffers(["a b.", "c."], 1, 1) == [["a b."], ["a b.", "c."]]
    ensures TotalWords(["a b.", "c."]) == 3
  {
    var one, two := ["a b."], ["a b.", "c."];
    TotalWordsOfExample();
    RunOfExample();
    assert Buffers(two, 1, 1) == [one, two];
  }

  lemma {:induction false} TotalWordsOfExample()
    ensures TotalWords(["a b.", "c."]) == 3
  {
    TotalWordsPair("a b.", "c.");
    TwoWordSentence();
    OneWordSentence();
  }

  lemma TotalWordsPair(x: string, y: string)
    ensures TotalWords([x]) == WordCount(x)
    ensures TotalWords([x, y]) == WordCount(x) + WordCount(y)
  {
    TotalWordsSnoc([], x);
    assert [] + [x] == [x];
    TotalWordsSnoc([x], y);
    assert [x] + [y] == [x, y];
  }

  lemma {:induction false} RunOfExample()
    ensures Run(["a b.", "c."], 1, 1) == Accum([["a b."]], ["a b.", "c."])
  {
    var one, two := ["a b."], ["a b.", "c."];
    assert Run(one, 1, 1) == Accum([], one) by {
      RunSnoc([], "a b.", 1, 1);
      assert [] + ["a b."] == one;
      assert Run([], 1, 1) == Accum([], []);
    }
    assert Step(Accum([], one), "c.", 1, 1) == Accum([one], two) by {
      StepOfExample();
    }
    assert Run(two, 1, 1) == Step(Run(one, 1, 1), "c.", 1, 1) by {
      RunSnoc(one, "c.", 1, 1);
      assert one + ["c."] == two;
    }
  }

  lemma {:induction false} StepOfExample()
    ensures Step(Accum([], ["a b."]), "c.", 1, 1) == Accum([["a b."]], ["a b.", "c."])
  {
    var one := ["a b."];
    assert TotalWords(one) == 2 by {
      TwoWordSentence();
      TotalWordsPair("a b.", "c.");
    }
    OneWordSentence();
    assert Carry(one, 1) == one;
  }

  // ---------------------------------------------------------------------------
  // Chunk records

  /** A chunk dictionary `{'text', 'start_word', 'end_word'}`. */
  datatype WordChunk = WordChunk(text: string, startWord: int, endWord: int)

  /** Chunk k of the buffers: its sentences joined by single spaces, with synthetic word offsets. */
  function ChunkOf(b: seq<string>, k: nat, size: int): WordChunk {
    var text := Join(b, " ");
    WordChunk(text, k * size, k * size + WordCount(text))
  }

  /** The chunks of the first n buffers. */
  function ChunksUpTo(bufs: seq<seq<string>>, n: nat, size: int): (cs: seq<WordChunk>)
    requires n <= |bufs|
    ensures |cs| == n
  {
    if n == 0 then [] else ChunksUpTo(bufs, n - 1, size) + [ChunkOf(bufs[n - 1], n - 1, size)]
  }

  /** The chunks of all the buffers, numbered in order. */
  function ChunksOfBuffers(bufs: seq<seq<string>>, size: int): (cs: seq<WordChunk>)
    ensures |cs| == |bufs|
  {
    ChunksUpTo(bufs, |bufs|, size)
  }

  lemma {:induction false} ChunksUpToAt(bufs: seq<seq<string>>, n: nat, size: int, k: nat)
    requires k < n <= |bufs|
    ensures ChunksUpTo(bufs, n, size)[k] == ChunkOf(bufs[k], k, size)
  {
    if k < n - 1 {
      ChunksUpToAt(bufs, n - 1, size, k);
    }
  }

  lemma ChunksOfBuffersAt(bufs: seq<seq<string>>, size: int, k: nat)
    requires k < |bufs|
    ensures ChunksOfBuffers(bufs, size)[k] == ChunkOf(bufs[k], k, size)
  {
    ChunksUpToAt(bufs, |bufs|, size, k);
  }

  /** The chunks of the first n buffers do not depend on the buffers after them. */
  lemma {:induction false} ChunksUpToPrefix(bufs: seq<seq<string>>, more: seq<seq<string>>, n: nat, size: int)
    requires n <= |bufs|
    ensures ChunksUpTo(bufs + more, n, size) == ChunksUpTo(bufs, n, size)
  {
    if n > 0 {
      ChunksUpToPrefix(bufs, more, n - 1, size);
      assert (bufs + more)[n - 1] == bufs[n - 1];
    }
  }

  /** Emitting one more buffer appends its chunk, numbered by the buffers before it. */
  lemma ChunksOfBuffersSnoc(bufs: seq<seq<string>>, b: seq<string>, size: int)
    ensures ChunksOfBuffers(bufs + [b], size) == ChunksOfBuffers(bufs, size) + [ChunkOf(b, |bufs|, size)]
  {
    ChunksUpToPrefix(bufs, [b], |bufs|, size);
    assert (bufs + [b])[|bufs|] == b;
  }

  /** What `split_into_chunks(text)` returns for the given chunk_size and chunk_overlap. */
  function Chunks(text: string, size: int, overlap: int): seq<WordChunk> {
    if text == [] then [] else ChunksOfBuffers(Buffers(SplitSentences(text), size, overlap), size)
  }

  /**
   * The chunks of a text: none for the empty text and at least one otherwise;
   * chunk k's words are those of its sentences, and it claims the word range
   * starting at k * size, as long as its own word count, wherever it really lies.
   */
  lemma {:induction false} ChunksSpec(text: string, size: int, overlap: int)
    ensures var cs := Chunks(text, size, overlap);
      && (cs == [] <==> text == [])
      && (text != [] ==> var bufs := Buffers(SplitSentences(text), size, overlap);
            forall k :: 0 <= k < |cs| ==>
              && Words(cs[k].text) == WordsOfAll(bufs[k])
              && cs[k].startWord == k * size
              && cs[k].endWord == k * size + TotalWords(bufs[k]))
  {
    if text != [] {
      var ss := SplitSentences(text);
      var bufs := Buffers(ss, size, overlap);
      assert bufs != [] by {
        BuffersSpec(ss, size, overlap);
      }
      forall k | 0 <= k < |bufs|
        ensures Words(Join(bufs[k], " ")) == WordsOfAll(bufs[k])
        ensures WordCount(Join(bufs[k], " ")) == TotalWords(bufs[k])
        ensures Chunks(text, size, overlap)[k] == ChunkOf(bufs[k], k, size)
      {
        WordsOfSpaceJoin(bufs[k]);
        ChunksOfBuffersAt(bufs, size, k);
      }
    }
  }
}

/**
 * `TextProcessor`: the segmentation of a 10-K text into labelled sections and
 * the chunking of those sections into sentence-aligned, overlapping chunks.
 */
module Processing {
  import opened Wrappers
  import opened Text
  import opened Seqs
  import opened Sections
  import opened Chunking

  /** Sections of more than this many words are cut into chunks. */
  const SubChunkThreshold: nat := 500

  /** The `type` every chunk made from a section carries. */
  const SectionContent: string := "section_content"

  /** A chunk dictionary `{'text', 'section', 'type'}` of `split_by_sections`. */
  datatype SectionChunk = SectionChunk(text: string, section: string, kind: string)

  /** The chunks one section contributes: its chunks when it is long, else itself whole. */
  function ChunksOfSection(sec: Section, size: int, overlap: int): seq<SectionChunk> {
    if WordCount(sec.content) > SubChunkThreshold then
      Relabel(Chunks(sec.content, size, overlap), sec.name)
    else [SectionChunk(sec.content, sec.name, SectionContent)]
  }

  /** The texts of cs, each labelled with section name. */
  function Relabel(cs: seq<WordChunk>, name: string): (r: seq<SectionChunk>)
    ensures |r| == |cs|
    ensures forall j :: 0 <= j < |r| ==> r[j] == SectionChunk(cs[j].text, name, SectionContent)
  {
    if cs == [] then [] else Relabel(cs[..|cs| - 1], name) + [SectionChunk(cs[|cs| - 1].text, name, SectionContent)]
  }

  /** The chunks of the sections, section by section in order. */
  function ChunksOfSections(ss: seq<Section>, size: int, overlap: int): seq<SectionChunk> {
    if ss == [] then []
    else ChunksOfSections(ss[..|ss| - 1], size, overlap) + ChunksOfSection(ss[|ss| - 1], size, overlap)
  }

  /** What `split_by_sections(text)` returns. */
  function SectionChunks(text: string, size: int, overlap: int): seq<SectionChunk> {
    ChunksOfSections(Segment(text), size, overlap)
  }

  /** Every chunk carries the label of some section and the type `section_content`. */
  predicate Labelled(cs: seq<SectionChunk>, ss: seq<Section>) {
    forall j :: 0 <= j < |cs| ==> cs[j].kind == SectionContent && HasSection(ss, cs[j].section)
  }

  /**
   * The chunks cs of section sec: at least one, each labelled with the
   * section's name and the type `section_content`; the section whole when it
   * has at most 500 words (even when it is empty); otherwise its long group.
   */
  predicate GroupOf(cs: seq<SectionChunk>, sec: Section, size: int, overlap: int) {
    && cs != []
    && (forall j :: 0 <= j < |cs| ==> cs[j].section == sec.name && cs[j].kind == SectionContent)
    && (WordCount(sec.content) <= SubChunkThreshold ==> cs == [SectionChunk(sec.content, sec.name, SectionContent)])
    && (WordCount(sec.content) > SubChunkThreshold ==> LongGroup(cs, sec.content, size, overlap))
  }

  /**
   * One chunk per sentence buffer of text, chunk k holding exactly the words
   * of buffer k, where the buffers, each carried-over tail counted once, are
   * the sentences of text in order.
   */
  predicate LongGroup(cs: seq<SectionChunk>, text: string, size: int, overlap: int) {
    var bufs := Buffers(SplitSentences(text), size, overlap);
    && |cs| == |bufs|
    && Stitch(bufs, overlap) == SplitSentences(text)
    && forall k :: 0 <= k < |cs| ==> Words(cs[k].text) == WordsOfAll(bufs[k])
  }

  /** The chunks a section contributes are its group: the section whole, or its chunks. */
  lemma {:induction false} SectionContributes(sec: Section, size: int, overlap: int)
    ensures GroupOf(ChunksOfSection(sec, size, overlap), sec, size, overlap)
  {
    if WordCount(sec.content) > SubChunkThreshold {
      LongSectionChunks(sec.content, sec.name, size, overlap);
    }
  }

  /** The chunks of a non-empty text, relabelled, are its long group. */
  lemma LongSectionChunks(text: string, name: string, size: int, overlap: int)
    requires text != []
    ensures var rs := Relabel(Chunks(text, size, overlap), name);
      rs != [] && LongGroup(rs, text, size, overlap)
  {
    var cs := Chunks(text, size, overlap);
    var rs := Relabel(cs, name);
    ChunksSpec(text, size, overlap);
    BuffersSpec(SplitSentences(text), size, overlap);
    forall k | 0 <= k < |rs|
      ensures Words(rs[k].text) == WordsOfAll(Buffers(SplitSentences(text), size, overlap)[k])
    {
      assert rs[k].text == cs[k].text;
    }
  }

  /** The sections' chunks are labelled by those sections, at least one per section. */
  lemma {:induction false} ChunksOfSectionsSpec(ss: seq<Section>, size: int, overlap: int)
    ensures |ChunksOfSections(ss, size, overlap)| >= |ss|
    ensures Labelled(ChunksOfSections(ss, size, overlap), ss)
    decreases |ss|
  {
    if ss != [] {
      var init, last := ss[..|ss| - 1], ss[|ss| - 1];
      ChunksOfSectionsSpec(init, size, overlap);
      SectionContributes(last, size, overlap);
      var front, back := ChunksOfSections(init, size, overlap), ChunksOfSection(last, size, overlap);
      var cs := front + back;
      forall j | 0 <= j < |cs|
        ensures cs[j].kind == SectionContent && HasSection(ss, cs[j].section)
      {
        if j < |front| {
          assert cs[j] == front[j];
          var i :| 0 <= i < |init| && init[i].name == cs[j].section;
          assert ss[i] == init[i];
        } else {
          assert cs[j] == back[j - |front|];
          assert ss[|ss| - 1].name == cs[j].section;
        }
      }
    }
  }

  /** The group of each section, in order. */
  function Groups(ss: seq<Section>, size: int, overlap: int): (gs: seq<seq<SectionChunk>>)
    ensures |gs| == |ss|
  {
    seq(|ss|, i requires 0 <= i < |ss| => ChunksOfSection(ss[i], size, overlap))
  }

  /** The chunks of the sections are their groups one after the other, in section order. */
  lemma {:induction false} ChunksOfSectionsGroups(ss: seq<Section>, size: int, overlap: int)
    ensures ChunksOfSections(ss, size, overlap) == Concat(Groups(ss, size, overlap))
    decreases |ss|
  {
    if ss != [] {
      var init := ss[..|ss| - 1];
      var gs := Groups(ss, size, overlap);
      ChunksOfSectionsGroups(init, size, overlap);
      assert gs[..|gs| - 1] == Groups(init, size, overlap);
    }
  }

  /**
   * `split_by_sections(text)` is one group of chunks per section of the
   * segmentation, in the segmentation's order, and each group is its
   * section whole or its section's chunks; the sentences of a long section
   * keep all of its words, in order.
   */
  lemma SectionChunksGroups(text: string, size: int, overlap: int)
    ensures var ss := Segment(text);
      && SectionChunks(text, size, overlap) == Concat(Groups(ss, size, overlap))
      && forall i :: 0 <= i < |ss| ==>
           && GroupOf(Groups(ss, size, overlap)[i], ss[i], size, overlap)
           && WordsOfAll(SplitSentences(ss[i].content)) == Words(ss[i].content)
  {
    var ss := Segment(text);
    ChunksOfSectionsGroups(ss, size, overlap);
    forall i | 0 <= i < |ss|
      ensures GroupOf(Groups(ss, size, overlap)[i], ss[i], size, overlap)
      ensures WordsOfAll(SplitSentences(ss[i].content)) == Words(ss[i].content)
    {
      SectionContributes(ss[i], size, overlap);
      SentencesKeepWords(ss[i].content);
    }
  }

  /**
   * `split_by_sections` never returns an empty list, and every chunk it
   * returns is labelled with a section of the segmentation.
   */
  lemma SectionChunksSpec(text: string, size: int, overlap: int)
    ensures SectionChunks(text, size, overlap) != []
    ensures Labelled(SectionChunks(text, size, overlap), Segment(text))
  {
    SegmentNonEmpty(text);
    ChunksOfSectionsSpec(Segment(text), size, overlap);
  }

  lemma SegmentNonEmpty(text: string)
    ensures |Segment(text)| >= 1
  {
    FoundInEmpty(SectionTable, text);
    if AnyHeader(SectionTable, text) {
      TableNamesDistinct();
      SegmentInLabelAt(SectionTable, text, 0) by {
        assert FoundIn(SectionTable, text) != [];
      }
    }
  }

  /** A text processor with its word budget and sentence overlap. */
  class TextProcessor {
    const chunkSize: int
    const chunkOverlap: int

    /** `TextProcessor(chunk_size, chunk_overlap)`; the program's defaults are 800 and 100. */
    constructor(chunkSize: int, chunkOverlap: int)
      ensures this.chunkSize == chunkSize && this.chunkOverlap == chunkOverlap
    {
      this.chunkSize := chunkSize;
      this.chunkOverlap := chunkOverlap;
    }

    /**
     * `identify_sections_with_content(text)`: the first match of each header
     * in table order, sorted by offset, then the stripped text between
     * consecutive matches; the whole text when nothing matches.
     */
    method IdentifySections(text: string) returns (sections: seq<Section>)
      ensures sections == Segment(text)
    {
      var starts := FindStarts(SectionTable, text);
      if starts == [] {
        return [Section(FullDocument, text)];
      }
      var sorted := SortBy(starts, StartKey);
      assert sorted == SortedIn(SectionTable, text);
      sections := CutSections(text, sorted);
    }

    /** The `section_starts` loop: the first match of each header, in table order. */
    method FindStarts(table: seq<SectionPattern>, text: string) returns (starts: seq<Boundary>)
      ensures starts == FoundIn(table, text)
    {
      starts := [];
      for k := 0 to |table|
        invariant starts == FoundIn(table[..k], text)
      {
        var m := Search(table[k].tokens, text);
        TakeTake(table, k);
        if m.Some? {
          starts := starts + [Boundary(table[k].name, m.value)];
        }
      }
      TakeAll(table);
    }

    /** The extraction loop: the stripped text from each boundary to the next one. */
    method CutSections(text: string, sorted: seq<Boundary>) returns (sections: seq<Section>)
      ensures sections == Slices(text, sorted)
    {
      sections := [];
      for i := 0 to |sorted|
        invariant sections == Slices(text, sorted)[..i]
      {
        var section := CutAt(text, sorted, i);
        TakeSnoc(Slices(text, sorted), i);
        sections := sections + [section];
      }
      TakeAll(Slices(text, sorted));
    }

    /** One pass of the extraction loop: up to the next boundary, or to the end of text after the last one. */
    method CutAt(text: string, sorted: seq<Boundary>, i: nat) returns (section: Section)
      requires i < |sorted|
      ensures section == SliceAt(text, sorted, i)
    {
      var startPos := sorted[i].start;
      var content: string;
      if i + 1 < |sorted| {
        var endPos := sorted[i + 1].start;
        content := Strip(Slice(text, startPos, endPos));
      } else {
        content := Strip(Slice(text, startPos, |text|));
      }
      section := Section(sorted[i].name, content);
    }

    /**
     * `split_into_chunks(text)`: the sentences are added to a buffer whose
     * running word count is kept in currentLength; a full buffer is emitted
     * as a chunk and the next one starts with its last chunkOverlap sentences.
     */
    method SplitIntoChunks(text: string) returns (chunks: seq<WordChunk>)
      ensures chunks == Chunks(text, chunkSize, chunkOverlap)
    {
      if text == [] {
        return [];
      }
      var sentences := SplitSentences(text);
      chunks := [];
      var current: seq<string> := [];
      var currentLength: int := 0;
      ghost var emitted: seq<seq<string>> := [];
      for i := 0 to |sentences|
        invariant Run(sentences[..i], chunkSize, chunkOverlap) == Accum(emitted, current)
        invariant currentLength == TotalWords(current)
        invariant chunks == ChunksOfBuffers(emitted, chunkSize)
      {
        TakeSnoc(sentences, i);
        RunSnoc(sentences[..i], sentences[i], chunkSize, chunkOverlap);
        chunks, current, currentLength, emitted := AddSentence(chunks, current, currentLength, emitted, sentences[i]);
      }
      TakeAll(sentences);
      if current != [] {
        ChunksOfBuffersSnoc(emitted, current, chunkSize);
        chunks := chunks + [ChunkOf(current, |chunks|, chunkSize)];
        emitted := emitted + [current];
      }
    }

    /**
     * One pass of the loop of `split_into_chunks` on a sentence: a buffer the
     * sentence would push past chunkSize words is emitted as the next chunk
     * and replaced by its last chunkOverlap sentences; the sentence is then
     * appended and its words added to the running count.
     */
    method AddSentence(chunks: seq<WordChunk>, current: seq<string>, currentLength: int,
                       ghost emitted: seq<seq<string>>, sentence: string)
      returns (chunks': seq<WordChunk>, current': seq<string>, currentLength': int, ghost emitted': seq<seq<string>>)
      requires currentLength == TotalWords(current)
      requires chunks == ChunksOfBuffers(emitted, chunkSize)
      ensures Step(Accum(emitted, current), sentence, chunkSize, chunkOverlap) == Accum(emitted', current')
      ensures currentLength' == TotalWords(current')
      ensures chunks' == ChunksOfBuffers(emitted', chunkSize)
    {
      chunks', current', currentLength', emitted' := chunks, current, currentLength, emitted;
      var sentenceLength := WordCount(sentence);
      if currentLength + sentenceLength > chunkSize && current != [] {
        ChunksOfBuffersSnoc(emitted, current, chunkSize);
        chunks' := chunks + [ChunkOf(current, |chunks|, chunkSize)];
        var overlapStart := if |current| - chunkOverlap > 0 then |current| - chunkOverlap else 0;
        emitted' := emitted + [current];
        current' := if overlapStart <= |current| then current[overlapStart..] else [];
        WordsOfSpaceJoin(current');
        currentLength' := WordCount(Join(current', " "));
      }
      TotalWordsSnoc(current', sentence);
      current' := current' + [sentence];
      currentLength' := currentLength' + sentenceLength;
    }

    /**
     * `split_by_sections(text)`: each section of more than 500 words is cut
     * into chunks, any other is kept whole; every chunk is labelled with its
     * section and the type `section_content`.
     */
    method SplitBySections(text: string) returns (chunks: seq<SectionChunk>)
      ensures chunks == SectionChunks(text, chunkSize, chunkOverlap)
    {
      var sections := IdentifySections(text);
      chunks := ChunkSections(sections);
    }

    /** The loop of `split_by_sections` over the sections, in order. */
    method ChunkSections(sections: seq<Section>) returns (chunks: seq<SectionChunk>)
      ensures chunks == ChunksOfSections(sections, chunkSize, chunkOverlap)
    {
      chunks := [];
      for i := 0 to |sections|
        invariant chunks == ChunksOfSections(sections[..i], chunkSize, chunkOverlap)
      {
        var sec := sections[i];
        TakeTake(sections, i);
        if WordCount(sec.content) > SubChunkThreshold {
          var sub := SplitIntoChunks(sec.content);
          chunks := AppendRelabelled(chunks, sub, sec.name);
        } else {
          chunks := chunks + [SectionChunk(sec.content, sec.name, SectionContent)];
        }
      }
      TakeAll(sections);
    }

    /** The inner loop of `split_by_sections`: each sub-chunk's text, labelled with the section, appended in order. */
    method AppendRelabelled(chunks: seq<SectionChunk>, sub: seq<WordChunk>, name: string) returns (chunks': seq<SectionChunk>)
      ensures chunks' == chunks + Relabel(sub, name)
    {
      chunks' := chunks;
      for j := 0 to |sub|
        invariant chunks' == chunks + Relabel(sub[..j], name)
      {
        TakeTake(sub, j);
        AppendSnoc(chunks, Relabel(sub[..j], name), SectionChunk(sub[j].text, name, SectionContent));
        chunks' := chunks' + [SectionChunk(sub[j].text, name, SectionContent)];
      }
      TakeAll(sub);
    }
  }
}

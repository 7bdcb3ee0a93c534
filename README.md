# sec_rag_system: the text-to-retrieval pipeline, in Dafny

This project models the deterministic core of a retrieval-augmented question
answering system over SEC 10-K filings, and proves what that core promises.

- **Cleaning** (`cleaner.dfy`) models `SECDataLoader.clean_text`. It is a fixed
  pipeline of `re.sub` passes: whitespace runs become one space, then the
  newline-framed page numbers, the `- n -` page numbers and the two form
  headers are deleted, runs of newlines are collapsed, and the text is stripped.
  Each regular expression is modelled by where Python's backtracking match at a
  position ends. `re.sub` is modelled by the left-to-right scan that replaces
  non-overlapping matches.
- **Sections** (`sections.dfy`) models the section segmenter of
  `TextProcessor.identify_sections_with_content`.
  - It holds the six `ITEM n. HEADING` header patterns and a greedy matcher for
    them, proved equal to the regular expression's meaning.
  - `re.search` is modelled as the leftmost match.
  - The segmenter takes the first match of each header, sorts the matches by
    offset (stable, so ties keep dictionary order) and cuts the stripped text
    between consecutive matches.
  - It falls back to the whole text under `full_document`.
- **Chunking** (`chunker.dfy`) models sentence splitting at whitespace after
  `.`, `!` or `?`. It also models the sentence buffers of `split_into_chunks`:
  a word budget, a carry-over of the last `chunk_overlap` sentences, and
  synthetic `start_word`/`end_word` fields.
- **Processing** (`text_processor.dfy`) is the `TextProcessor` class. Its
  methods keep the loops of `identify_sections_with_content`,
  `split_into_chunks` and `split_by_sections`, and each method is proved equal
  to a specification function.
- **VectorStores** (`vector_store.dfy`) is the `VectorStore` class: the
  `index`, `chunks` and `metadata` fields, `create_index`, `save_index`,
  `load_index` and the result assembly of `similarity_search`. The FAISS search
  is an oracle function, and the files are a map from path to content.
- **Retrieval** (`retriever.dfy`) is the `Retriever` class. It holds the
  threshold filter of `retrieve` and the context rendering of `format_context`.
  It also holds the methods of `EnhancedRetriever`: keyword routing, the 1.5
  boost of preferred sections, and a stable descending sort cut to `top_k`.
- **Text** and **Seqs** (`text.dfy`, `seqs.dfy`) model the Python built-ins
  the core relies on:
  - `str.split`, `str.strip`, `sep.join`, `str.lower`, `w in s`, `str(n)`,
    `f"{x:.3f}"`;
  - the stable `sorted`/`list.sort` and `s[:n]`.

Scores are `real`s, so the boost and the comparisons are exact. The embedding
model is a function field of the retriever.

## Model

| member | source | states |
|---|---|---|
| Processing.TextProcessor.constructor | src/text_processor.py:8-10 | keeps the word budget `chunk_size` and the sentence overlap `chunk_overlap` as given |
| Processing.TextProcessor.IdentifySections | src/text_processor.py:57-97 | its result is `Segment(text)`, the segmentation whose meaning the `Segment*` lemmas state |
| Processing.TextProcessor.FindStarts | src/text_processor.py:72-77 | the loop over the header table collects the first match of each header that occurs, in table order (`FoundIn`) |
| Processing.TextProcessor.CutSections | src/text_processor.py:88-95 | the extraction loop yields one labelled span per sorted boundary, in order |
| Processing.TextProcessor.CutAt | src/text_processor.py:89-95 | span i is the stripped text from boundary i to the next boundary, or to the end after the last one |
| Processing.TextProcessor.SplitIntoChunks | src/text_processor.py:99-140 | its result is `Chunks(text, chunk_size, chunk_overlap)`: `[]` for the empty text, and otherwise one chunk per sentence buffer, including the final one |
| Processing.TextProcessor.AddSentence | src/text_processor.py:111-129 | one loop pass is one `Step` of the buffer automaton, and the running length stays the word count of the buffer |
| Processing.TextProcessor.SplitBySections | src/text_processor.py:29-55 | its result is `SectionChunks(text, …)`; see `SectionChunksGroups` |
| Processing.TextProcessor.ChunkSections | src/text_processor.py:35-52 | the loop over sections gives the chunks of each section in section order (`ChunksOfSections`) |
| Processing.TextProcessor.AppendRelabelled | src/text_processor.py:40-46 | each sub-chunk's text is appended in order, labelled with the section and `section_content` |
| Processing.Relabel | src/text_processor.py:41-46 | one relabelled chunk per sub-chunk, with the same text, the section label and the type `section_content` |
| Processing.SectionContributes | src/text_processor.py:39-52 | a section of at most 500 words yields exactly itself, even when empty; a longer section yields its chunks, which keep its words; every chunk carries the section's name and `section_content` |
| Processing.LongSectionChunks | src/text_processor.py:39-46 | a long section yields at least one chunk; chunk k holds exactly the words of sentence buffer k; the buffers cover the section's sentences in order |
| Processing.ChunksOfSectionsSpec | src/text_processor.py:35-52 | at least one chunk per section, each labelled with a section of the input and `section_content` |
| Processing.ChunksOfSectionsGroups | src/text_processor.py:35-52 | the chunks are the sections' groups one after the other, in section order |
| Processing.SectionChunksGroups | src/text_processor.py:29-55 | `split_by_sections` is one group per segment, in segment order, and each group satisfies `GroupOf`; splitting a section into sentences keeps all of its words |
| Processing.SectionChunksSpec | src/text_processor.py:29-55 | the result is never empty, and every chunk is labelled with a section of the segmentation |
| Processing.SegmentNonEmpty | src/text_processor.py:79-97 | the segmentation has at least one span |
| Sections.GreedyMatchesRegex | src/text_processor.py:60-67 | for the header patterns' shape, taking every `\s*` whole and every available dot finds a match exactly when the regex has one |
| Sections.SearchFromFound | src/text_processor.py:74 | a reported match is there, and no match starts earlier |
| Sections.SearchFromMissing | src/text_processor.py:74 | no match is reported only when none starts anywhere |
| Sections.SearchLeftmost | src/text_processor.py:74 | `re.search` gives the leftmost offset where the regex matches, or None when it matches nowhere |
| Sections.TablePatternsWellFormed | src/text_processor.py:60-67 | all six header patterns have the shape for which the greedy matcher is exact |
| Sections.TableLabelsDistinct | src/text_processor.py:60-67 | the six labels are distinct, and none is `full_document` |
| Sections.FoundInFirstMatches | src/text_processor.py:72-76 | the boundaries found are the first matches of the headers that occur, one per header, under distinct labels |
| Sections.FoundInEmpty | src/text_processor.py:72-79 | no boundary is found exactly when no header occurs |
| Sections.SortedAt | src/text_processor.py:85 | after the sort, every boundary is still the first match of its header |
| Sections.SortedNamesDistinctIn | src/text_processor.py:85 | after the sort there is still one boundary per header |
| Sections.SortedCompleteIn | src/text_processor.py:85 | the sort loses no header that occurs |
| Sections.SortedIn | src/text_processor.py:85 | the sorted boundaries are in ascending offset order and are a permutation of those found |
| Sections.SegmentFallback | src/text_processor.py:79-82 | `{'full_document': text}`, with the text unstripped, is returned exactly when none of the six headers occurs |
| Sections.SegmentLabels | src/text_processor.py:72-95 | when a header occurs, the spans are labelled by exactly the headers that occur, each once |
| Sections.SegmentOrder | src/text_processor.py:85-95 | spans come in ascending order of their header's first match |
| Sections.SegmentContent | src/text_processor.py:88-95 | span i is `text[start_i:start_{i+1}].strip()`, and the last span runs to the end |
| Sections.SegmentInFallback | src/text_processor.py:79-82 | for any table of distinct labels, the fallback is returned exactly when no header occurs |
| Sections.SegmentInLabelsOccur | src/text_processor.py:72-95 | for any table of distinct labels, every span's label is a header that occurs, and no label repeats |
| Sections.SegmentInLabelsComplete | src/text_processor.py:72-95 | a header labels a span exactly when it occurs |
| Sections.SegmentInOrder | src/text_processor.py:85-95 | spans are in ascending order of first match |
| Sections.SegmentInContentAt | src/text_processor.py:88-95 | span i is the stripped text between its header's first match and the next span's |
| Sections.SliceAtContent | src/text_processor.py:89-93 | a span of ordered boundaries is the stripped substring up to the next boundary, or to the end |
| Chunking.SentencesKeepWords | src/text_processor.py:105 | splitting into sentences loses and reorders no word |
| Chunking.SentencesTerminated | src/text_processor.py:105 | every sentence but the last ends with `.`, `!` or `?` |
| Chunking.SentencesUnsplit | src/text_processor.py:105 | no separator is left inside a sentence |
| Chunking.SentencesTrimmed | src/text_processor.py:105 | every sentence but the first starts with a non-whitespace character |
| Chunking.RunKeepsInvariant | src/text_processor.py:111-129 | across the loop, the buffers stay stitched to the input, linked by the overlap, within budget and non-empty |
| Chunking.BuffersSpec | src/text_processor.py:111-138 | there are no buffers exactly when there are no sentences, and no buffer is empty. Stitched together, each carried-over tail counted once, the buffers are the sentences in order. Buffer k+1 starts with the last min(overlap, len) sentences of buffer k. Its first new sentence is the one that would have pushed buffer k past the budget. A buffer with two or more new sentences stays within the budget |
| Chunking.OverlapCanExceedBudget | src/text_processor.py:114-126 | the overlap counts sentences: with budget 1 and overlap 1, the second chunk holds 3 words |
| Chunking.ChunksSpec | src/text_processor.py:101-138 | no chunks exactly for the empty text. Chunk k's words are those of its sentence buffer. `start_word = k*chunk_size` and `end_word = start_word +` its word count |
| Chunking.ChunksOfBuffersSnoc | src/text_processor.py:116-121 | emitting a buffer appends its chunk, numbered by the chunks before it |
| VectorStores.VectorStore.constructor | src/vector_store.py:9-13 | a new store has no index, no chunks and no metadata |
| VectorStores.VectorStore.CreateIndex | src/vector_store.py:15-26 | the new state is an index over the embeddings, the given chunks, and the given metadata; if that is None or empty, one `{}` per chunk |
| VectorStores.DefaultMetadata | src/vector_store.py:26 | the given list unless it is None or empty, otherwise `len(chunks)` empty dictionaries |
| VectorStores.VectorStore.SaveIndex | src/vector_store.py:35-52 | it fails without touching the files on a path with no directory or with no index; otherwise it writes exactly the index file and the metadata file |
| VectorStores.SaveTouchesTwoFiles | src/vector_store.py:41-50 | a successful save changes no other file |
| VectorStores.FileNamesDiffer | src/vector_store.py:41-49 | the index file and the metadata file never coincide |
| VectorStores.DirnameEmptyIff | src/vector_store.py:37-38 | `dirname` is empty exactly when the path has no `/` |
| VectorStores.VectorStore.LoadIndex | src/vector_store.py:54-91 | its result and new state are `LoadFiles` of the files and the old state |
| VectorStores.LoadAfterSave | src/vector_store.py:44-50 | loading what was saved returns True and restores index, chunks and metadata, whatever the state before |
| VectorStores.LoadMissingKeepsState | src/vector_store.py:57-64 | a missing file gives False and leaves the state unchanged |
| VectorStores.LoadSucceedsIff | src/vector_store.py:66-85 | loading returns True exactly when both files are present and readable, and then it replaces the whole state |
| VectorStores.LoadDoesNotRollBack | src/vector_store.py:67-73 | an unreadable metadata file gives False, yet the index is replaced; the chunks are replaced too when the file held chunks without metadata |
| VectorStores.VectorStore.SimilaritySearch | src/vector_store.py:93-121 | the error is "Index not initialized" when there is no index; otherwise the result is `Assemble` of the rows the index returns |
| VectorStores.PyIndex | src/vector_store.py:107 | Python's `s[i]`: negative positions count from the end; the `IndexError` happens exactly outside `-len..len-1` |
| VectorStores.AssembleIsReference | src/vector_store.py:104-119 | the result loop equals a reference. It raises `IndexError` when some row's position is below the start of the chunk or metadata list. Otherwise it gives one hit per row whose position is below `len(chunks)`, in row order |
| VectorStores.SearchKeepsRows | src/vector_store.py:104-119 | on success, one hit per kept row with that row's score; no hit is dropped for its score |
| VectorStores.SearchFailsIff | src/vector_store.py:105-117 | the search fails exactly when some row's position is below `-len(chunks)` or `-len(metadata)` |
| VectorStores.PaddingRowIsLastChunk | src/vector_store.py:106-107 | the padding row with position -1 is not dropped: it yields the last chunk |
| VectorStores.PaddingRowOnEmptyStore | src/vector_store.py:106-107 | on a store with no chunks, the padding row raises |
| VectorStores.DefaultMetadataIsEmpty | src/vector_store.py:117 | with the default metadata, every hit's metadata is `{}` |
| VectorStores.LastSlashEnd | src/vector_store.py:37 | the offset just past the last `/`; no `/` follows it |
| VectorStores.TrimSlashes | src/vector_store.py:37 | the path without its trailing `/`s, a prefix of it |
| Retrieval.Retriever.Retrieve | src/retriever.py:10-35 | the result is `AboveThreshold` of the search for `k = top_k`, or the search's error |
| Retrieval.AboveThresholdInOrder | src/retriever.py:29-33 | the filter keeps an order-preserving subsequence |
| Retrieval.AboveThresholdCounts | src/retriever.py:29-33 | every hit scoring at least the threshold is kept as often as it occurs, and no other hit is kept |
| Retrieval.AboveThresholdScores | src/retriever.py:29-33 | every kept hit scores at least the threshold |
| Retrieval.AboveThresholdIdempotent | src/retriever.py:29-33 | filtering twice is filtering once |
| Retrieval.RetrieveAtMostRows | src/retriever.py:26-35 | `retrieve` returns no more hits than the index returned rows |
| Retrieval.Retriever.FormatContextOf | src/retriever.py:37-55 | the loop's result is `FormatContext(results)` |
| Retrieval.FormatContextEmptyIff | src/retriever.py:47-55 | the context is `""` exactly when there are no results |
| Retrieval.FormatContextSnoc | src/retriever.py:50-55 | one more result adds a newline and its block, numbered after the others |
| Retrieval.Retriever.RetrieveForQuestionType | src/retriever.py:61-79 | the result is the boosted retrieval with the preference `Route(question)` |
| Retrieval.RiskRouteIff | src/retriever.py:63-67 | a question routes to `risk_factors` exactly when its lower-cased text contains "risk", "challenge" or "threat" |
| Retrieval.RoutePriority | src/retriever.py:66-77 | the keyword groups are tried in order: business only without a risk keyword, the financial sections only without either, None only without any |
| Retrieval.Retriever.RetrieveWithSectionBoost | src/retriever.py:81-103 | the result is `SectionBoost` of the search for `k = 3*top_k`, or the search's error |
| Retrieval.Retriever.BoostScores | src/retriever.py:91-99 | the loop's result is `BoostAll(results, preferred)` |
| Retrieval.BoostedSpec | src/retriever.py:92-99 | only preferred hits change, and only their score, which is multiplied by 1.5; a negative score moves down |
| Retrieval.SectionBoostRanked | src/retriever.py:102-103 | with a preference, the result is in non-increasing boosted score, holds min(top_k, n) hits for top_k ≥ 0, and is a sub-multiset of the boosted hits |
| Retrieval.SectionBoostStable | src/retriever.py:102 | hits with equal boosted score keep their search order |
| Retrieval.SectionBoostUnique | src/retriever.py:102 | any descending arrangement of the boosted hits that keeps ties in search order is the sorted result |
| Retrieval.NoPreferenceKeepsAll | src/retriever.py:87-88 | without a preference, a large enough top_k returns the search's hits unchanged, with no threshold applied |
| Retrieval.PreferenceKeepsAll | src/retriever.py:91-103 | with a preference, a large enough top_k returns every boosted hit, whatever its score |
| Cleaning.CleanTextSpec | src/data_loader.py:42-69 | `CleanText`, the pass sequence of `clean_text`, returns a result no longer than the input and `""` for `""`. The result has no leading or trailing whitespace, and no whitespace but plain spaces; in particular no newline survives |
| Cleaning.CleanTextPasses | src/data_loader.py:51-65 | the two newline passes change nothing, so cleaning is collapse, page-number and header deletion, then strip |
| Cleaning.CleanTextWords | src/data_loader.py:51-65 | when no page number or header occurs, the cleaned text has exactly the input's words |
| Cleaning.CleanTextCanDoubleSpace | src/data_loader.py:51-55 | `"a -1- b"` cleans to `"a  b"`: the output is not single-spaced in general |
| Cleaning.WhitespaceMatchIff | src/data_loader.py:51 | `\s+` at a position matches exactly the maximal whitespace run there |
| Cleaning.CollapseSingleSpaced | src/data_loader.py:51 | after the collapse every whitespace character is a space, and no two are adjacent |
| Cleaning.CollapseIdempotent | src/data_loader.py:51 | collapsing twice is collapsing once |
| Cleaning.CollapseKeepsWords | src/data_loader.py:51 | the collapse keeps the words of the text |
| Cleaning.PageNumberMatchForm | src/data_loader.py:55 | a page-number match covers dash, whitespace, at least one digit, whitespace, dash |
| Cleaning.PageNumberFormMatches | src/data_loader.py:55 | conversely, text of that form is the match found at its start |
| Cleaning.SubLength | src/data_loader.py:51-62 | a replacement no longer than one character never lengthens the text |
| Cleaning.DeletionIsSubsequence | src/data_loader.py:55-59 | deleting matches keeps the other characters, in order |
| Cleaning.DeletionsShrink | src/data_loader.py:55-59 | the deletion passes never lengthen the text and bring in no whitespace |
| Cleaning.NoNewlineKeeps | src/data_loader.py:54-62 | the passes whose pattern needs a newline change nothing in text without one |
| Cleaning.StripKeepsWords | src/data_loader.py:65 | `strip()` removes no word |
| Text.WordsOfSpaceJoin | src/text_processor.py:116-126 | `' '.join(parts).split()` is the words of the parts, and its length is their total |
| Text.WordsAppend | src/text_processor.py:112 | cutting a string before whitespace cuts its word list there |
| Text.NoWordsIffAllSpace | src/text_processor.py:39 | `split()` finds no word exactly in all-whitespace text |
| Text.StripSpec | src/text_processor.py:91-93 | `strip()` is the slice between the leading and trailing whitespace, empty exactly for all-whitespace text |
| Text.Slice | src/text_processor.py:91-93 | Python's clamped `s[a:b]` |
| Text.ContainsAt | src/retriever.py:66-72 | `w in s` holds when w occurs at some offset |
| Text.ContainsOccurs | src/retriever.py:66-72 | `w in s` holds only when w occurs at some offset |
| Text.DecimalValueOfNatToString | src/retriever.py:53 | `str(i)` reads back as i |
| Text.RoundHalfEven | src/retriever.py:53 | the nearest integer, ties to even |
| Text.Fixed3Close | src/retriever.py:53 | `f"{x:.3f}"` is well formed and within half a thousandth of x |
| Seqs.PyTake | src/retriever.py:87-103 | Python's `s[:n]`, negative n included |
| Seqs.SortBy | src/retriever.py:102 | a sorted permutation |
| Seqs.SortByStable | src/retriever.py:102 | equal keys keep their original order |
| Seqs.SortByCharacterized | src/retriever.py:102 | the stable sort is the only sorted arrangement keeping equal keys in order |

## Left out

- Embedding: the sentence-transformer model (`load_embedding_model`, `create_embeddings`, `encode`) is a function field `embed` of the retriever.
- Retrieval.Retriever.Retrieve: `embed` is total, so the model does not capture the `AttributeError` that `retrieve` and `retrieve_with_section_boost` raise while the text processor's `embedding_model` is None.
- VectorStores.VectorStore.SimilaritySearch: FAISS is an unconstrained oracle `search(index, query, k)`, so the model does not bound its rows by k, order them by score, or normalise the embeddings (`normalize_L2`) or the query (`np.linalg.norm`). The lemmas hold for whatever rows it returns.
- VectorStores.VectorStore.CreateIndex: the index is the list of embeddings as given; the flat inner-product index's internals and its dimension check are not modelled.
- VectorStores.VectorStore.SaveIndex: `os.makedirs` and directories are reduced to "the directory name is empty". A path without `/` fails, as `os.makedirs('')` does. Any other path is assumed writable, so no directory is created or checked.
- VectorStores: pickling and FAISS file formats are reduced to the `FileContent` cases; a file that cannot be read is `OtherFile`. A pickled `chunks` value without a length (such as None) makes the debug `len(self.chunks)` raise after both assignments, so `load_index` returns False with the whole state replaced; `FileContent` cannot express that, so `LoadSucceedsIff` speaks of files readable in this sense.
- Text.Fixed3: `f"{score:.3f}"` renders the exact real with half-even rounding, not the binary double nearest to it.
- Text.LowerChar: `lower()` folds ASCII letters only. Python also folds other letters, so the routing keywords and the case-insensitive matches are not found through non-ASCII case variants.
- Sections.CiChar: `re.IGNORECASE` is ASCII-only here. Python also matches U+212A KELVIN SIGN against `k` and `ſ` against `s`; the model does not.
- Cleaning.MatchEnd: `re.IGNORECASE` in the header deletions folds ASCII letters only, for the same reason.
- Text.IsDigit: `\d` is modelled as the ASCII digits. Python's `\d` also matches every other Unicode decimal digit.
- Retrieval.Retriever: `EnhancedRetriever` is not a separate subclass. Its two methods are methods of `Retriever`, because they add no state.
- Default arguments are not modelled: every call passes its values. These are the 800/100 of `TextProcessor`, `top_k=5`, `similarity_threshold=0.7`, the `None` preference and the default index path `./models/faiss_index`.
- Printing and logging, including `traceback.print_exc()`, are left out.
- `create_index` and `load_index` make no length checks of chunks against metadata or embeddings, and neither does the model.
- A failed `load_index` does not roll back the index, or the chunks in the case of a metadata file without `metadata`. The model follows the code here too (`LoadDoesNotRollBack`).
- VectorStores.StoredChunk: a stored chunk's `str()` is carried as a given string, because object rendering is not modelled.
- The rest of `SECDataLoader` (PDF extraction, document information, validation), the answer generator, the command-line and web front ends, and the integration scripts are not part of this model.

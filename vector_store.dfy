/**
 * `VectorStore`: a flat inner-product index over the chunk embeddings, the
 * chunks themselves and one metadata dictionary per chunk, saved to and
 * loaded from two files that share the index path as their stem.
 */
module VectorStores {
  import opened Wrappers
  import opened Seqs

  /** An embedding vector. */
  type Vector = seq<real>

  /** A metadata dictionary such as `{'section': 'business', 'type': 'section_content'}`. */
  type Metadata = map<string, string>

  /**
   * A stored chunk: a dictionary (its string-valued keys, and `str(chunk)`
   * as the runtime renders it), a plain string, or any other object with
   * its `str`.
   */
  datatype StoredChunk =
    | DictChunk(fields: map<string, string>, rendered: string)
    | StrChunk(s: string)
    | OtherChunk(rendered: string)

  /** The flat index: the vectors added to it, in order. */
  datatype FlatIndex = FlatIndex(vectors: seq<Vector>)

  /** One row of `index.search`: a score and a position; FAISS pads missing rows with position -1. */
  datatype RawHit = RawHit(score: real, position: int)

  /** A search result `(text, score, metadata)`. */
  datatype Hit = Hit(text: string, score: real, metadata: Metadata)

  /** `ValueError("Index not initialized")`, or an `IndexError` from indexing the chunk or metadata list. */
  datatype SearchError = NotInitialized | IndexOutOfRange

  /** The store's state: the index (None before one is created or loaded), the chunks, the metadata. */
  datatype StoreState = StoreState(index: Option<FlatIndex>, chunks: seq<StoredChunk>, metadata: seq<Metadata>)

  // ---------------------------------------------------------------------------
  // Creating an index

  /** `metadata if metadata else [{}] * n`: the given list unless it is missing or empty. */
  function DefaultMetadata(given: Option<seq<Metadata>>, n: nat): (m: seq<Metadata>)
    ensures given.Some? && given.value != [] ==> m == given.value
    ensures given.None? || given.value == [] ==> |m| == n && forall i :: 0 <= i < n ==> m[i] == map[]
  {
    if given.Some? && given.value != [] then given.value else seq(n, _ => map[])
  }

  // ---------------------------------------------------------------------------
  // Assembling search results

  /** Python's `s[i]`: a negative i counts from the end; None is the `IndexError`. */
  function PyIndex<T>(s: seq<T>, i: int): (r: Option<T>)
    ensures 0 <= i < |s| ==> r == Some(s[i])
    ensures -|s| <= i < 0 ==> r == Some(s[|s| + i])
    ensures r.None? <==> i < -|s| || |s| <= i
  {
    if 0 <= i < |s| then Some(s[i]) else if -|s| <= i < 0 then Some(s[|s| + i]) else None
  }

  /** The text of a chunk: a dictionary's `text` (else its `str`), a string itself, any other object's `str`. */
  function ChunkText(c: StoredChunk): string {
    match c
    case DictChunk(fields, rendered) => if "text" in fields then fields["text"] else rendered
    case StrChunk(s) => s
    case OtherChunk(rendered) => rendered
  }

  /**
   * One pass of the result loop on a row: a row whose position is not below
   * the number of chunks adds nothing; otherwise the chunk and the metadata
   * at that position (no metadata when the list is too short) make one hit.
   */
  function RowHits(chunks: seq<StoredChunk>, metadata: seq<Metadata>, row: RawHit): Result<seq<Hit>, SearchError> {
    if row.position >= |chunks| then Success([])
    else
      match PyIndex(chunks, row.position)
      case None => Failure(IndexOutOfRange)
      case Some(chunk) =>
        var md := if row.position < |metadata| then PyIndex(metadata, row.position) else Some(map[]);
        match md
        case None => Failure(IndexOutOfRange)
        case Some(m) => Success([Hit(ChunkText(chunk), row.score, m)])
  }

  /** hs in front of a successful result; a failure stays a failure. */
  function Prepend(hs: seq<Hit>, r: Result<seq<Hit>, SearchError>): Result<seq<Hit>, SearchError> {
    match r
    case Success(rest) => Success(hs + rest)
    case Failure(e) => Failure(e)
  }

  lemma PrependTwice(a: seq<Hit>, b: seq<Hit>, r: Result<seq<Hit>, SearchError>)
    ensures Prepend(a, Prepend(b, r)) == Prepend(a + b, r)
  {
    if r.Success? {
      AppendAssoc(a, b, r.value);
    }
  }

  lemma PrependNothing(r: Result<seq<Hit>, SearchError>)
    ensures Prepend([], r) == r
  {
    if r.Success? {
      assert [] + r.value == r.value;
    }
  }

  /** The result list of `similarity_search` for the rows the index returned; the first failing row raises. */
  function Assemble(chunks: seq<StoredChunk>, metadata: seq<Metadata>, rows: seq<RawHit>): Result<seq<Hit>, SearchError>
    decreases |rows|
  {
    if rows == [] then Success([])
    else
      match RowHits(chunks, metadata, rows[0])
      case Failure(e) => Failure(e)
      case Success(hs) => Prepend(hs, Assemble(chunks, metadata, rows[1..]))
  }

  /** The result from row i on: row i's hits in front of the result from row i + 1 on. */
  lemma AssembleFrom(chunks: seq<StoredChunk>, metadata: seq<Metadata>, rows: seq<RawHit>, i: nat)
    requires i < |rows|
    ensures Assemble(chunks, metadata, rows[i..]) ==
      match RowHits(chunks, metadata, rows[i])
      case Failure(e) => Failure(e)
      case Success(hs) => Prepend(hs, Assemble(chunks, metadata, rows[i + 1..]))
  {
    assert rows[i..][0] == rows[i] && rows[i..][1..] == rows[i + 1..];
  }

  /** What `similarity_search(query, k)` returns on state st, with `index.search` as the oracle. */
  function SearchOn(st: StoreState, search: (FlatIndex, Vector, int) -> seq<RawHit>, query: Vector, k: int): Result<seq<Hit>, SearchError> {
    if st.index.None? then Failure(NotInitialized)
    else Assemble(st.chunks, st.metadata, search(st.index.value, query, k))
  }

  // The reference: which rows raise, which are listed, and the hit a listed row makes.

  /** Indexing the chunks or the metadata at a row's position raises. */
  predicate Raises(chunks: seq<StoredChunk>, metadata: seq<Metadata>, row: RawHit) {
    row.position < -|chunks| || row.position < -|metadata|
  }

  /** The rows whose position is below n, in order. */
  function Listed(rows: seq<RawHit>, n: int): (out: seq<RawHit>)
    ensures |out| <= |rows|
    ensures forall r :: r in out ==> r in rows && r.position < n
    ensures forall r :: r in rows && r.position < n ==> r in out
  {
    if rows == [] then []
    else (if rows[0].position < n then [rows[0]] else []) + Listed(rows[1..], n)
  }

  /** A row that neither raises nor is dropped. */
  predicate Resolves(chunks: seq<StoredChunk>, metadata: seq<Metadata>, row: RawHit) {
    -|chunks| <= row.position < |chunks| && -|metadata| <= row.position
  }

  /** The hit a resolving row makes, with Python's negative positions counted from the end. */
  function MakeHit(chunks: seq<StoredChunk>, metadata: seq<Metadata>, row: RawHit): Hit
    requires Resolves(chunks, metadata, row)
  {
    var p := row.position;
    var chunk := chunks[if p < 0 then |chunks| + p else p];
    var m := if p < |metadata| then metadata[if p < 0 then |metadata| + p else p] else map[];
    Hit(ChunkText(chunk), row.score, m)
  }

  function HitsOf(chunks: seq<StoredChunk>, metadata: seq<Metadata>, rows: seq<RawHit>): (hs: seq<Hit>)
    requires forall r :: r in rows ==> Resolves(chunks, metadata, r)
    ensures |hs| == |rows|
  {
    seq(|rows|, i requires 0 <= i < |rows| => MakeHit(chunks, metadata, rows[i]))
  }

  /**
   * The result described without the loop: an `IndexError` when some row
   * raises, otherwise one hit per row whose position is below the number
   * of chunks, in the order of the rows.
   */
  function SearchReference(chunks: seq<StoredChunk>, metadata: seq<Metadata>, rows: seq<RawHit>): Result<seq<Hit>, SearchError> {
    if exists r :: r in rows && Raises(chunks, metadata, r) then Failure(IndexOutOfRange)
    else Success(HitsOf(chunks, metadata, Listed(rows, |chunks|)))
  }

  /** The loop's result is the reference's. */
  lemma {:induction false} AssembleIsReference(chunks: seq<StoredChunk>, metadata: seq<Metadata>, rows: seq<RawHit>)
    ensures Assemble(chunks, metadata, rows) == SearchReference(chunks, metadata, rows)
    decreases |rows|
  {
    if rows != [] {
      var r, rest := rows[0], rows[1..];
      AssembleIsReference(chunks, metadata, rest);
      RaisesCons(chunks, metadata, rows);
      if !Raises(chunks, metadata, r) && !(exists x :: x in rest && Raises(chunks, metadata, x)) {
        AssembleResolving(chunks, metadata, rows);
      }
    }
  }

  lemma RaisesCons(chunks: seq<StoredChunk>, metadata: seq<Metadata>, rows: seq<RawHit>)
    requires rows != []
    ensures (exists x :: x in rows && Raises(chunks, metadata, x))
        <==> Raises(chunks, metadata, rows[0]) || exists x :: x in rows[1..] && Raises(chunks, metadata, x)
  {
    assert rows == [rows[0]] + rows[1..];
  }

  /** When no row raises, the first row's hits go in front of the reference hits of the rest. */
  lemma AssembleResolving(chunks: seq<StoredChunk>, metadata: seq<Metadata>, rows: seq<RawHit>)
    requires rows != [] && forall x :: x in rows ==> !Raises(chunks, metadata, x)
    requires forall x :: x in Listed(rows[1..], |chunks|) ==> Resolves(chunks, metadata, x)
    requires Assemble(chunks, metadata, rows[1..]) == Success(HitsOf(chunks, metadata, Listed(rows[1..], |chunks|)))
    ensures forall x :: x in Listed(rows, |chunks|) ==> Resolves(chunks, metadata, x)
    ensures Assemble(chunks, metadata, rows) == Success(HitsOf(chunks, metadata, Listed(rows, |chunks|)))
  {
    var r, rest := rows[0], rows[1..];
    assert r in rows;
    var head := if r.position < |chunks| then [r] else [];
    var kept, keptRest := Listed(rows, |chunks|), Listed(rest, |chunks|);
    assert kept == head + keptRest;
    assert forall x :: x in kept ==> Resolves(chunks, metadata, x) by {
      forall x | x in kept ensures Resolves(chunks, metadata, x) {
        assert x in rows;
      }
    }
    RowHitsResolves(chunks, metadata, r);
    HitsOfAppend(chunks, metadata, head, keptRest);
    if r.position < |chunks| {
      assert HitsOf(chunks, metadata, head) == [MakeHit(chunks, metadata, r)];
    } else {
      assert HitsOf(chunks, metadata, head) == [];
    }
  }

  /** A row that does not raise makes exactly the reference's hit, or none when it is dropped. */
  lemma RowHitsResolves(chunks: seq<StoredChunk>, metadata: seq<Metadata>, r: RawHit)
    ensures Raises(chunks, metadata, r) && r.position < |chunks| <==> RowHits(chunks, metadata, r).Failure?
    ensures Raises(chunks, metadata, r) && r.position < |chunks| ==> RowHits(chunks, metadata, r) == Failure(IndexOutOfRange)
    ensures !Raises(chunks, metadata, r) && r.position < |chunks| ==>
      Resolves(chunks, metadata, r) && RowHits(chunks, metadata, r) == Success([MakeHit(chunks, metadata, r)])
    ensures r.position >= |chunks| ==> RowHits(chunks, metadata, r) == Success([])
  {
  }

  lemma HitsOfAppend(chunks: seq<StoredChunk>, metadata: seq<Metadata>, a: seq<RawHit>, b: seq<RawHit>)
    requires forall r :: r in a + b ==> Resolves(chunks, metadata, r)
    ensures forall r :: r in a ==> Resolves(chunks, metadata, r)
    ensures forall r :: r in b ==> Resolves(chunks, metadata, r)
    ensures HitsOf(chunks, metadata, a + b) == HitsOf(chunks, metadata, a) + HitsOf(chunks, metadata, b)
  {
    assert forall r :: r in a ==> r in a + b;
    assert forall r :: r in b ==> r in a + b;
  }

  /**
   * On success there is one hit per row whose position is below the number
   * of chunks, with that row's score, in the order of the rows; nothing is
   * dropped for a low score.
   */
  lemma SearchKeepsRows(chunks: seq<StoredChunk>, metadata: seq<Metadata>, rows: seq<RawHit>)
    requires Assemble(chunks, metadata, rows).Success?
    ensures var hs, kept := Assemble(chunks, metadata, rows).value, Listed(rows, |chunks|);
      && |hs| == |kept| <= |rows|
      && forall i :: 0 <= i < |hs| ==> hs[i].score == kept[i].score
  {
    AssembleIsReference(chunks, metadata, rows);
  }

  /** The search fails exactly when some row's position reaches below the start of the chunk or metadata list. */
  lemma SearchFailsIff(chunks: seq<StoredChunk>, metadata: seq<Metadata>, rows: seq<RawHit>)
    ensures Assemble(chunks, metadata, rows).Failure? <==> exists r :: r in rows && Raises(chunks, metadata, r)
    ensures Assemble(chunks, metadata, rows).Failure? ==> Assemble(chunks, metadata, rows).error == IndexOutOfRange
  {
    AssembleIsReference(chunks, metadata, rows);
  }

  /**
   * The padding row FAISS returns when the index holds fewer than k vectors
   * has position -1, which is below the number of chunks, so it is not
   * dropped: it yields the last chunk again.
   */
  lemma PaddingRowIsLastChunk(chunks: seq<StoredChunk>, metadata: seq<Metadata>, score: real)
    requires chunks != [] && metadata != []
    ensures Assemble(chunks, metadata, [RawHit(score, -1)])
         == Success([Hit(ChunkText(chunks[|chunks| - 1]), score, metadata[|metadata| - 1])])
  {
    var row := RawHit(score, -1);
    var hit := Hit(ChunkText(chunks[|chunks| - 1]), score, metadata[|metadata| - 1]);
    assert RowHits(chunks, metadata, row) == Success([hit]);
    assert [row][1..] == [];
    assert [hit] + [] == [hit];
  }

  /** On a store with no chunks the padding row raises `IndexError`. */
  lemma PaddingRowOnEmptyStore(metadata: seq<Metadata>, score: real)
    ensures Assemble([], metadata, [RawHit(score, -1)]) == Failure(IndexOutOfRange)
  {
  }

  /** With the default metadata, every hit of a search has an empty metadata dictionary. */
  lemma DefaultMetadataIsEmpty(chunks: seq<StoredChunk>, rows: seq<RawHit>)
    requires Assemble(chunks, DefaultMetadata(None, |chunks|), rows).Success?
    ensures forall h :: h in Assemble(chunks, DefaultMetadata(None, |chunks|), rows).value ==> h.metadata == map[]
  {
    var md := DefaultMetadata(None, |chunks|);
    AssembleIsReference(chunks, md, rows);
    var kept := Listed(rows, |chunks|);
    forall h | h in Assemble(chunks, md, rows).value
      ensures h.metadata == map[]
    {
      var i :| 0 <= i < |kept| && HitsOf(chunks, md, kept)[i] == h;
      assert kept[i] in kept;
    }
  }

  // ---------------------------------------------------------------------------
  // Saving and loading

  /**
   * The content of a file as `faiss.read_index` and `pickle.load` see it: an
   * index, a pickled dictionary with both `chunks` and `metadata`, one with
   * `chunks` but no `metadata`, or anything else.
   */
  datatype FileContent =
    | IndexFile(index: FlatIndex)
    | MetaFile(chunks: seq<StoredChunk>, metadata: seq<Metadata>)
    | ChunksOnlyFile(chunks: seq<StoredChunk>)
    | OtherFile

  /** Saving raises: `os.makedirs('')` for a path with no directory, or `write_index(None)` with no index. */
  datatype SaveError = NoDirectory | NoIndex

  /** The file `write_index` writes: `f"{index_path}.faiss"`. */
  function IndexFileName(path: string): string {
    path + ".faiss"
  }

  /** The file the chunks and metadata are pickled to: `f"{index_path}_meta.pkl"`. */
  function MetaFileName(path: string): string {
    path + "_meta.pkl"
  }

  /** Saving never overwrites the index file with the metadata file. */
  lemma FileNamesDiffer(path: string)
    ensures IndexFileName(path) != MetaFileName(path)
  {
    assert IndexFileName(path)[|path|] == '.' && MetaFileName(path)[|path|] == '_';
  }

  /** The offset just after the last '/' of p, 0 when there is none. */
  function LastSlashEnd(p: string): (n: nat)
    ensures n <= |p|
    ensures n > 0 ==> p[n - 1] == '/'
    ensures forall i :: n <= i < |p| ==> p[i] != '/'
  {
    if p == [] then 0 else if p[|p| - 1] == '/' then |p| else LastSlashEnd(p[..|p| - 1])
  }

  /** p without its trailing '/'s. */
  function TrimSlashes(p: string): (r: string)
    ensures |r| <= |p| && r == p[..|r|]
    ensures r == [] || r[|r| - 1] != '/'
    ensures forall i :: |r| <= i < |p| ==> p[i] == '/'
  {
    if p == [] || p[|p| - 1] != '/' then p else TrimSlashes(p[..|p| - 1])
  }

  /** `os.path.dirname(p)`: up to the last '/', without trailing '/'s unless it is all '/'s. */
  function Dirname(p: string): string {
    var head := p[..LastSlashEnd(p)];
    var trimmed := TrimSlashes(head);
    if trimmed == [] then head else trimmed
  }

  /** `dirname` is empty exactly when the path has no '/'. */
  lemma DirnameEmptyIff(p: string)
    ensures Dirname(p) == [] <==> forall i :: 0 <= i < |p| ==> p[i] != '/'
  {
    var n := LastSlashEnd(p);
    if n > 0 {
      assert p[..n][n - 1] == '/';
    }
  }

  /** The files after `save_index` from state st, or the exception it raises. */
  function SaveFiles(files: map<string, FileContent>, path: string, st: StoreState): Result<map<string, FileContent>, SaveError> {
    if Dirname(path) == [] then Failure(NoDirectory)
    else if st.index.None? then Failure(NoIndex)
    else Success(files[IndexFileName(path) := IndexFile(st.index.value)][MetaFileName(path) := MetaFile(st.chunks, st.metadata)])
  }

  /**
   * `load_index()` on state st: false and no change when either file is
   * missing; the index is read first and the chunks before the metadata, so
   * when the metadata file cannot be read whole, what was assigned before the
   * failure stays assigned.
   */
  function LoadFiles(files: map<string, FileContent>, path: string, st: StoreState): (bool, StoreState) {
    var ip, mp := IndexFileName(path), MetaFileName(path);
    if ip !in files || mp !in files then (false, st)
    else if !files[ip].IndexFile? then (false, st)
    else
      var st' := st.(index := Some(files[ip].index));
      match files[mp]
      case MetaFile(chunks, metadata) => (true, st'.(chunks := chunks, metadata := metadata))
      case ChunksOnlyFile(chunks) => (false, st'.(chunks := chunks))
      case _ => (false, st')
  }

  /** Loading what was saved restores index, chunks and metadata, whatever the state before. */
  lemma LoadAfterSave(files: map<string, FileContent>, path: string, saved: StoreState, before: StoreState)
    requires SaveFiles(files, path, saved).Success?
    ensures LoadFiles(SaveFiles(files, path, saved).value, path, before) == (true, saved)
  {
    FileNamesDiffer(path);
  }

  /** A successful save touches only the two files of the index path. */
  lemma SaveTouchesTwoFiles(files: map<string, FileContent>, path: string, st: StoreState, name: string)
    requires SaveFiles(files, path, st).Success?
    requires name != IndexFileName(path) && name != MetaFileName(path)
    ensures name in SaveFiles(files, path, st).value <==> name in files
    ensures name in files ==> SaveFiles(files, path, st).value[name] == files[name]
  {
  }

  /** A missing file makes loading report false and leave the state as it was. */
  lemma LoadMissingKeepsState(files: map<string, FileContent>, path: string, st: StoreState)
    requires IndexFileName(path) !in files || MetaFileName(path) !in files
    ensures LoadFiles(files, path, st) == (false, st)
  {
  }

  /** Loading succeeds exactly when both files are there and readable; on success it replaces the whole state. */
  lemma LoadSucceedsIff(files: map<string, FileContent>, path: string, st: StoreState)
    ensures var ip, mp := IndexFileName(path), MetaFileName(path);
      && (LoadFiles(files, path, st).0 <==> ip in files && mp in files && files[ip].IndexFile? && files[mp].MetaFile?)
      && (LoadFiles(files, path, st).0 ==>
            LoadFiles(files, path, st).1 == StoreState(Some(files[ip].index), files[mp].chunks, files[mp].metadata))
  {
  }

  /**
   * A metadata file that cannot be read whole after a readable index file:
   * false, yet the index has changed, and so have the chunks when the file
   * held them without metadata.
   */
  lemma LoadDoesNotRollBack(files: map<string, FileContent>, path: string, st: StoreState)
    requires IndexFileName(path) in files && files[IndexFileName(path)].IndexFile?
    requires MetaFileName(path) in files && !files[MetaFileName(path)].MetaFile?
    ensures LoadFiles(files, path, st).0 == false
    ensures var meta := files[MetaFileName(path)];
      LoadFiles(files, path, st).1 ==
        st.(index := Some(files[IndexFileName(path)].index),
            chunks := if meta.ChunksOnlyFile? then meta.chunks else st.chunks)
  {
  }

  // ---------------------------------------------------------------------------
  // The store

  /** The files on disk, by path. */
  class FileSystem {
    var files: map<string, FileContent>

    constructor(files: map<string, FileContent>)
      ensures this.files == files
    {
      this.files := files;
    }
  }

  class VectorStore {
    const indexPath: string
    /** `index.search(query, k)` of the FAISS index: the rows it returns, best first. */
    const search: (FlatIndex, Vector, int) -> seq<RawHit>
    var index: Option<FlatIndex>
    var chunks: seq<StoredChunk>
    var metadata: seq<Metadata>

    /** `VectorStore(index_path)`: no index, no chunks, no metadata. */
    constructor(indexPath: string, search: (FlatIndex, Vector, int) -> seq<RawHit>)
      ensures this.indexPath == indexPath && this.search == search
      ensures State() == StoreState(None, [], [])
    {
      this.indexPath := indexPath;
      this.search := search;
      index := None;
      chunks := [];
      metadata := [];
    }

    /** The three fields the operations read and write. */
    function State(): StoreState
      reads this
    {
      StoreState(index, chunks, metadata)
    }

    /** `create_index(embeddings, chunks, metadata)`: a new index over the embeddings; metadata defaults to `{}` per chunk. */
    method CreateIndex(embeddings: seq<Vector>, chunks: seq<StoredChunk>, metadata: Option<seq<Metadata>>)
      modifies this
      ensures State() == StoreState(Some(FlatIndex(embeddings)), chunks, DefaultMetadata(metadata, |chunks|))
    {
      index := Some(FlatIndex(embeddings));
      this.chunks := chunks;
      this.metadata := if metadata.Some? && metadata.value != [] then metadata.value else seq(|chunks|, _ => map[]);
    }

    /** `save_index()`: the index file, then the pickled chunks and metadata. */
    method SaveIndex(fs: FileSystem) returns (r: Result<(), SaveError>)
      modifies fs
      ensures SaveFiles(old(fs.files), indexPath, State()).Success? ==>
        r == Success(()) && fs.files == SaveFiles(old(fs.files), indexPath, State()).value
      ensures SaveFiles(old(fs.files), indexPath, State()).Failure? ==>
        r == Failure(SaveFiles(old(fs.files), indexPath, State()).error) && fs.files == old(fs.files)
    {
      if Dirname(indexPath) == [] {
        return Failure(NoDirectory);
      }
      if index.None? {
        return Failure(NoIndex);
      }
      fs.files := fs.files[IndexFileName(indexPath) := IndexFile(index.value)];
      fs.files := fs.files[MetaFileName(indexPath) := MetaFile(chunks, metadata)];
      r := Success(());
    }

    /** `load_index()`. */
    method LoadIndex(fs: FileSystem) returns (ok: bool)
      modifies this
      ensures (ok, State()) == LoadFiles(fs.files, indexPath, old(State()))
    {
      var ip, mp := IndexFileName(indexPath), MetaFileName(indexPath);
      if ip !in fs.files {
        return false;
      }
      if mp !in fs.files {
        return false;
      }
      match fs.files[ip] {
        case IndexFile(ix) => index := Some(ix);
        case _ => return false;
      }
      match fs.files[mp] {
        case MetaFile(c, m) =>
          chunks := c;
          metadata := m;
        case ChunksOnlyFile(c) =>
          chunks := c;
          return false;
        case _ => return false;
      }
      return true;
    }

    /** `similarity_search(query, k)`. */
    method SimilaritySearch(query: Vector, k: int) returns (r: Result<seq<Hit>, SearchError>)
      ensures r == SearchOn(State(), search, query, k)
    {
      if index.None? {
        return Failure(NotInitialized);
      }
      var rows := search(index.value, query, k);
      var results: seq<Hit> := [];
      assert rows[0..] == rows;
      PrependNothing(Assemble(chunks, metadata, rows));
      for i := 0 to |rows|
        invariant Assemble(chunks, metadata, rows) == Prepend(results, Assemble(chunks, metadata, rows[i..]))
      {
        var score, idx := rows[i].score, rows[i].position;
        AssembleFrom(chunks, metadata, rows, i);
        if idx < |chunks| {
          var chunk := PyIndex(chunks, idx);
          if chunk.None? {
            return Failure(IndexOutOfRange);
          }
          var text := ChunkText(chunk.value);
          var md := if idx < |metadata| then PyIndex(metadata, idx) else Some(map[]);
          if md.None? {
            return Failure(IndexOutOfRange);
          }
          assert RowHits(chunks, metadata, rows[i]) == Success([Hit(text, score, md.value)]);
          PrependTwice(results, [Hit(text, score, md.value)], Assemble(chunks, metadata, rows[i + 1..]));
          results := results + [Hit(text, score, md.value)];
        } else {
          assert RowHits(chunks, metadata, rows[i]) == Success([]);
          PrependTwice(results, [], Assemble(chunks, metadata, rows[i + 1..]));
          assert results + [] == results;
        }
      }
      assert rows[|rows|..] == [];
      assert results + [] == results;
      r := Success(results);
    }
  }
}

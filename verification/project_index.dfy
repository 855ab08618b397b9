/** The index bookkeeping of the backend's indexing service: the ordering and
    completeness check of `embed_texts`, the record assembly of
    `rebuild_project_index` and the hit filter of `search_project_chunks`.
    Embedding vectors are an abstract type `V` and FAISS scores an abstract
    type `S`; the HTTP reply of the embedding service and the hits FAISS
    returns are inputs. */
module ProjectIndex {
  import opened Wrappers
  import opened PyText
  import opened Sorting
  import opened Chunking

  // ---------------------------------------------------------------- embed_texts

  /** One element of the reply's `data` array: its `index` field (absent =
      None) and its `embedding` field (absent or null = None). */
  datatype EmbeddingRow<V> = EmbeddingRow(index: Option<int>, embedding: Option<V>)

  /** The embedding service's HTTP reply: status code, body text, and the
      `data` array of the JSON body (None when the body has no `data`).
      A body that is not a JSON object, or whose `data` is null, has no
      representation here. */
  datatype EmbeddingReply<V> = EmbeddingReply(status: int, body: string, data: Option<seq<EmbeddingRow<V>>>)

  /** The sort key `row.get("index", 0)`. */
  function RowKey<V>(row: EmbeddingRow<V>): int {
    row.index.GetOr(0)
  }

  predicate RowLe<V>(a: EmbeddingRow<V>, b: EmbeddingRow<V>) {
    RowKey(a) <= RowKey(b)
  }

  function SortedRows<V>(reply: EmbeddingReply<V>): seq<EmbeddingRow<V>> {
    SortBy(reply.data.GetOr([]), RowLe)
  }

  predicate HasEmbedding<V>(row: EmbeddingRow<V>) {
    row.embedding.Some?
  }

  /** `embed_texts(texts)`, given whether the service token is configured and
      the reply the service would send. Empty input needs no request. The
      result is one vector per text, taken from the rows in ascending `index`
      order; a missing token is a 500, and a failed request or a reply whose
      row count differs from the text count or that lacks an embedding is a
      502. */
  function EmbedTexts<V>(texts: seq<string>, tokenConfigured: bool, reply: EmbeddingReply<V>): (r: Result<seq<V>, HttpError>)
    ensures texts == [] ==> r == Ok([])
    ensures r.Ok? <==>
      || texts == []
      || (&& tokenConfigured && reply.status < 400
          && |reply.data.GetOr([])| == |texts|
          && forall row :: row in reply.data.GetOr([]) ==> HasEmbedding(row))
    ensures r.Ok? ==> |r.value| == |texts|
    ensures texts != [] && !tokenConfigured ==> r == Err(HttpError(InternalServerError, "GITHUB_TOKEN is not configured"))
    ensures texts != [] && tokenConfigured && reply.status >= 400 ==>
      r == Err(HttpError(BadGateway, "Embedding request failed: " + reply.body))
    ensures r.Err? && texts != [] && tokenConfigured && reply.status < 400 ==>
      r == Err(HttpError(BadGateway, "Embedding response was incomplete"))
  {
    if texts == [] then Ok([])
    else if !tokenConfigured then Err(HttpError(InternalServerError, "GITHUB_TOKEN is not configured"))
    else if reply.status >= 400 then Err(HttpError(BadGateway, "Embedding request failed: " + reply.body))
    else
      var rows := SortedRows(reply);
      AllEmbedded(reply);
      if |rows| != |texts| || exists k :: 0 <= k < |rows| && !HasEmbedding(rows[k]) then
        Err(HttpError(BadGateway, "Embedding response was incomplete"))
      else
        Ok(seq(|rows|, k requires 0 <= k < |rows| => rows[k].embedding.value))
  }

  /** Sorting neither adds nor drops rows, so the completeness check may look
      at the reply's rows in either order. */
  lemma AllEmbedded<V>(reply: EmbeddingReply<V>)
    ensures |SortedRows(reply)| == |reply.data.GetOr([])|
    ensures (forall k :: 0 <= k < |SortedRows(reply)| ==> HasEmbedding(SortedRows(reply)[k]))
        <==> (forall row :: row in reply.data.GetOr([]) ==> HasEmbedding(row))
  {
    var rows, data := SortedRows(reply), reply.data.GetOr([]);
    SortByMembers(data, RowLe);
    if forall k :: 0 <= k < |rows| ==> HasEmbedding(rows[k]) {
      forall row | row in data
        ensures HasEmbedding(row)
      {
        assert row in rows;
      }
    }
    if forall row :: row in data ==> HasEmbedding(row) {
      forall k | 0 <= k < |rows|
        ensures HasEmbedding(rows[k])
      {
        assert rows[k] in multiset(rows);
        assert rows[k] in multiset(data);
      }
    }
  }

  lemma RowLeIsTotalPreorder<V(!new)>()
    ensures TotalPreorder(RowLe<V>)
  {
  }

  /** On success the i-th vector is the embedding of the row with the i-th
      smallest `index`; rows with equal keys (a missing `index` counts as 0)
      keep their reply order, as Python's stable `sorted` keeps them. */
  lemma EmbedOrder<V(!new)>(texts: seq<string>, tokenConfigured: bool, reply: EmbeddingReply<V>)
    requires texts != [] && EmbedTexts(texts, tokenConfigured, reply).Ok?
    ensures multiset(SortedRows(reply)) == multiset(reply.data.GetOr([]))
    ensures SortedBy(SortedRows(reply), RowLe)
    ensures forall a :: TieClass(SortedRows(reply), RowLe, a) == TieClass(reply.data.GetOr([]), RowLe, a)
    ensures |SortedRows(reply)| == |texts|
    ensures forall k :: 0 <= k < |SortedRows(reply)| ==>
      SortedRows(reply)[k].embedding == Some(EmbedTexts(texts, tokenConfigured, reply).value[k])
  {
    RowLeIsTotalPreorder<V>();
    SortBySorted(reply.data.GetOr([]), RowLe);
    SortByMembers(reply.data.GetOr([]), RowLe);
    forall a: EmbeddingRow<V>
      ensures TieClass(SortedRows(reply), RowLe, a) == TieClass(reply.data.GetOr([]), RowLe, a)
    {
      SortByStable(reply.data.GetOr([]), RowLe, a);
    }
  }

  /** When no reply row carries an `index`, every key is 0 and the rows keep
      their reply order: vector k is the embedding of reply row k. */
  lemma EmbedUnindexed<V(!new)>(texts: seq<string>, tokenConfigured: bool, reply: EmbeddingReply<V>)
    requires texts != [] && EmbedTexts(texts, tokenConfigured, reply).Ok?
    requires forall row :: row in reply.data.GetOr([]) ==> row.index.None?
    ensures |reply.data.GetOr([])| == |texts|
    ensures forall k :: 0 <= k < |texts| ==>
      reply.data.GetOr([])[k].embedding == Some(EmbedTexts(texts, tokenConfigured, reply).value[k])
  {
    RowLeIsTotalPreorder<V>();
    SortByAllTied(reply.data.GetOr([]), RowLe);
    EmbedOrder(texts, tokenConfigured, reply);
  }

  // ----------------------------------------------------- rebuild_project_index

  /** What `parse_document` makes of a file: its text (".txt" and ".pdf"),
      or the lower-cased suffix it refuses with 400. */
  datatype Parsed = Text(text: string) | Unsupported(suffix: string)

  /** A regular file of the project's upload directory, by name, with what
      `parse_document` makes of it. */
  datatype Upload = Upload(name: string, parsed: Parsed)

  /** A file `parse_document` accepted, with the text it extracted. */
  datatype SourceFile = SourceFile(name: string, text: string)

  /** One element of `mapping.json`. */
  datatype IndexRecord = IndexRecord(source: string, chunkIndex: nat, text: string)

  /** `sorted(paths)`: files of one directory compare by name. */
  predicate FileLe(a: SourceFile, b: SourceFile) {
    LexLe(a.name, b.name)
  }

  lemma FileLeIsTotalPreorder()
    ensures TotalPreorder(FileLe)
  {
    forall a: SourceFile, b: SourceFile
      ensures FileLe(a, b) || FileLe(b, a)
    {
      LexLeTotal(a.name, b.name);
    }
    forall a: SourceFile, b: SourceFile, c: SourceFile | FileLe(a, b) && FileLe(b, c)
      ensures FileLe(a, c)
    {
      LexLeTransitive(a.name, b.name, c.name);
    }
  }

  /** A file together with the chunks `chunk_text` cut from its text. */
  datatype ChunkedFile = ChunkedFile(name: string, chunks: seq<string>)

  function Chunked(f: SourceFile): ChunkedFile {
    ChunkedFile(f.name, ChunkText(f.text, ChunkSize, ChunkOverlap))
  }

  /** The files in `sorted` order, each with its chunks. */
  function SortedChunkedFiles(files: seq<SourceFile>): (cs: seq<ChunkedFile>)
    ensures |cs| == |files|
  {
    var sorted := SortBy(files, FileLe);
    seq(|sorted|, k requires 0 <= k < |sorted| => Chunked(sorted[k]))
  }

  /** The records the inner loop appends for one file: its chunks, numbered
      from 0 in chunk order, each labelled with the file name. */
  function FileRecords(f: ChunkedFile): (rs: seq<IndexRecord>)
    ensures |rs| == |f.chunks|
    ensures forall r :: r in rs ==> r.source == f.name
  {
    seq(|f.chunks|, i requires 0 <= i < |f.chunks| => IndexRecord(f.name, i, f.chunks[i]))
  }

  /** The records of the files, in the given file order. */
  function RecordsOf(files: seq<ChunkedFile>): seq<IndexRecord> {
    if files == [] then [] else FileRecords(files[0]) + RecordsOf(files[1..])
  }

  /** Number of chunks in the given files: the offset at which the records of
      the next file start. */
  function ChunkCount(files: seq<ChunkedFile>): nat {
    if files == [] then 0 else |files[0].chunks| + ChunkCount(files[1..])
  }

  /** `all_chunks` of `rebuild_project_index`: one record per chunk of every
      file, each labelled with the name of the file it came from. */
  function BuildRecords(files: seq<SourceFile>): (records: seq<IndexRecord>)
    ensures |records| == ChunkCount(SortedChunkedFiles(files))
    ensures forall x :: x in records ==> exists f :: f in files && f.name == x.source
  {
    var cs := SortedChunkedFiles(files);
    RecordsLength(cs);
    RecordSources(cs);
    ChunkedNames(files);
    RecordsOf(cs)
  }

  /** Every chunked file carries the name of one of the files. */
  lemma ChunkedNames(files: seq<SourceFile>)
    ensures forall c :: c in SortedChunkedFiles(files) ==> exists f :: f in files && f.name == c.name
  {
    var sorted := SortBy(files, FileLe);
    SortByMembers(files, FileLe);
    forall c | c in SortedChunkedFiles(files)
      ensures exists f :: f in files && f.name == c.name
    {
      var k :| 0 <= k < |SortedChunkedFiles(files)| && SortedChunkedFiles(files)[k] == c;
      assert sorted[k] in sorted;
    }
  }

  lemma {:induction false} RecordsLength(files: seq<ChunkedFile>)
    ensures |RecordsOf(files)| == ChunkCount(files)
  {
    if files != [] {
      RecordsLength(files[1..]);
    }
  }

  /** Chunk i of file k is the record at the chunk count of the files before
      file k, plus i, numbered i and labelled with the file's name. */
  predicate RecordPlaced(records: seq<IndexRecord>, files: seq<ChunkedFile>, k: nat, i: nat)
    requires k < |files|
  {
    && ChunkCount(files[..k]) + i < |records|
    && i < |files[k].chunks|
    && records[ChunkCount(files[..k]) + i] == IndexRecord(files[k].name, i, files[k].chunks[i])
  }

  lemma {:induction false} RecordAt(files: seq<ChunkedFile>, k: nat, i: nat)
    requires k < |files| && i < |files[k].chunks|
    ensures RecordPlaced(RecordsOf(files), files, k, i)
  {
    var f, rest := files[0], files[1..];
    var head := FileRecords(f);
    assert RecordsOf(files) == head + RecordsOf(rest);
    if k == 0 {
      assert files[..0] == [];
      assert RecordsOf(files)[i] == head[i];
    } else {
      RecordAt(rest, k - 1, i);
      assert files[..k][0] == f && files[..k][1..] == rest[..k - 1];
      assert ChunkCount(files[..k]) == |head| + ChunkCount(rest[..k - 1]);
      assert files[k] == rest[k - 1];
    }
  }

  /** Layout of the records: file k's block starts at the chunk count of the
      files before it and holds that file's chunks numbered 0, 1, ... in
      chunk order; the blocks fill the whole list. */
  lemma RecordsLayout(files: seq<ChunkedFile>)
    ensures |RecordsOf(files)| == ChunkCount(files)
    ensures forall k, i :: 0 <= k < |files| && 0 <= i < |files[k].chunks| ==> RecordPlaced(RecordsOf(files), files, k, i)
  {
    RecordsLength(files);
    forall k, i | 0 <= k < |files| && 0 <= i < |files[k].chunks|
      ensures RecordPlaced(RecordsOf(files), files, k, i)
    {
      RecordAt(files, k, i);
    }
  }

  /** Every record is labelled with the name of one of the files. */
  lemma {:induction false} RecordSources(files: seq<ChunkedFile>)
    ensures forall r :: r in RecordsOf(files) ==> exists f :: f in files && f.name == r.source
  {
    if files != [] {
      RecordSources(files[1..]);
      forall r | r in RecordsOf(files)
        ensures exists f :: f in files && f.name == r.source
      {
        if r in FileRecords(files[0]) {
          assert files[0] in files;
        } else {
          assert r in RecordsOf(files[1..]);
          var f :| f in files[1..] && f.name == r.source;
          assert f in files;
        }
      }
    }
  }

  predicate NamesSorted(files: seq<ChunkedFile>) {
    forall i, j :: 0 <= i < j < |files| ==> LexLe(files[i].name, files[j].name)
  }

  /** Records of files sorted by name are ordered by source name. */
  lemma {:induction false} RecordsOrderedBySource(files: seq<ChunkedFile>)
    requires NamesSorted(files)
    ensures forall i, j :: 0 <= i < j < |RecordsOf(files)| ==> LexLe(RecordsOf(files)[i].source, RecordsOf(files)[j].source)
  {
    if files != [] {
      var f, rest := files[0], files[1..];
      var head, tail := FileRecords(f), RecordsOf(rest);
      RecordsOrderedBySource(rest);
      RecordSources(rest);
      var rs := RecordsOf(files);
      assert rs == head + tail;
      forall i, j | 0 <= i < j < |rs|
        ensures LexLe(rs[i].source, rs[j].source)
      {
        if j < |head| {
          assert rs[i] in head && rs[j] in head;
          LexLeTotal(f.name, f.name);
        } else if i < |head| {
          assert rs[i] in head;
          assert rs[j] == tail[j - |head|];
          var g :| g in rest && g.name == rs[j].source;
          var m :| 0 <= m < |rest| && rest[m] == g;
          assert files[m + 1] == g;
        } else {
          assert rs[i] == tail[i - |head|] && rs[j] == tail[j - |head|];
        }
      }
    }
  }

  /** `rebuild_project_index` takes the files in name order (a permutation of
      the directory listing), numbers each file's chunks from 0 in chunk
      order, and lists the records file after file, so that the records are
      ordered by source name and their number is the total chunk count. */
  lemma BuildRecordsSpec(files: seq<SourceFile>)
    ensures multiset(SortBy(files, FileLe)) == multiset(files)
    ensures SortedBy(SortBy(files, FileLe), FileLe)
    ensures forall k :: 0 <= k < |files| ==> SortedChunkedFiles(files)[k] == Chunked(SortBy(files, FileLe)[k])
    ensures |BuildRecords(files)| == ChunkCount(SortedChunkedFiles(files))
    ensures forall i, j :: 0 <= i < j < |BuildRecords(files)| ==>
      LexLe(BuildRecords(files)[i].source, BuildRecords(files)[j].source)
    ensures forall k, i :: 0 <= k < |files| && 0 <= i < |SortedChunkedFiles(files)[k].chunks| ==>
      RecordPlaced(BuildRecords(files), SortedChunkedFiles(files), k, i)
  {
    FileLeIsTotalPreorder();
    SortBySorted(files, FileLe);
    var cs := SortedChunkedFiles(files);
    RecordsLayout(cs);
    assert NamesSorted(cs);
    RecordsOrderedBySource(cs);
  }

  /** What the project's index directory holds: the FAISS index (absent =
      None; modelled by the vectors it was built from) and `mapping.json`
      (absent = None). */
  datatype IndexState<V> = IndexState(index: Option<seq<V>>, mapping: Option<seq<IndexRecord>>)

  /** The index directory after a rebuild, and what the call returned: the
      chunk count or the error that stopped it. */
  datatype Rebuilt<V> = Rebuilt(state: IndexState<V>, outcome: Result<nat, HttpError>)

  predicate UploadLe(a: Upload, b: Upload) {
    LexLe(a.name, b.name)
  }

  lemma UploadLeIsTotalPreorder()
    ensures TotalPreorder(UploadLe)
  {
    forall a: Upload, b: Upload
      ensures UploadLe(a, b) || UploadLe(b, a)
    {
      LexLeTotal(a.name, b.name);
    }
    forall a: Upload, b: Upload, c: Upload | UploadLe(a, b) && UploadLe(b, c)
      ensures UploadLe(a, c)
    {
      LexLeTransitive(a.name, b.name, c.name);
    }
  }

  predicate AllParsed(uploads: seq<Upload>) {
    forall k :: 0 <= k < |uploads| ==> uploads[k].parsed.Text?
  }

  /** The accepted files with their texts, in the given order. */
  function ParsedFiles(uploads: seq<Upload>): (files: seq<SourceFile>)
    requires AllParsed(uploads)
    ensures |files| == |uploads|
    ensures forall k :: 0 <= k < |uploads| ==> files[k] == SourceFile(uploads[k].name, uploads[k].parsed.text)
  {
    seq(|uploads|, k requires 0 <= k < |uploads| => SourceFile(uploads[k].name, uploads[k].parsed.text))
  }

  /** The position of the first file `parse_document` refuses, if any. */
  function FirstUnsupported(us: seq<Upload>): (r: Option<nat>)
    ensures r.None? <==> AllParsed(us)
    ensures r.Some? ==> r.value < |us| && us[r.value].parsed.Unsupported?
    ensures r.Some? ==> forall j :: 0 <= j < r.value ==> us[j].parsed.Text?
  {
    if us == [] then None
    else if us[0].parsed.Unsupported? then Some(0)
    else
      match FirstUnsupported(us[1..])
      case None => None
      case Some(k) => Some(k + 1)
  }

  /** The texts sent to the embedding service, one per record. */
  function RecordTexts(records: seq<IndexRecord>): (texts: seq<string>)
    ensures |texts| == |records|
    ensures forall k :: 0 <= k < |records| ==> texts[k] == records[k].text
  {
    seq(|records|, k requires 0 <= k < |records| => records[k].text)
  }

  /** The 400 `parse_document` raises for a refused suffix. */
  function UnsupportedError(suffix: string): HttpError {
    HttpError(BadRequest, "Unsupported file format: " + suffix)
  }

  /** `rebuild_project_index`. The files are parsed in name order, and the
      first one refused stops the rebuild with its 400 before anything is
      written. With no records the index file is removed, the mapping
      becomes `[]` and the count is 0. Otherwise the record texts are
      embedded; on success the index holds vector k for record k, the mapping
      is the records and the count their number, and a failed embedding
      returns its error and changes nothing. */
  function RebuildIndex<V>(before: IndexState<V>, uploads: seq<Upload>, tokenConfigured: bool, reply: EmbeddingReply<V>): (r: Rebuilt<V>)
    ensures !AllParsed(uploads) ==> r.state == before && r.outcome.Err? && r.outcome.error.status == BadRequest
    ensures !AllParsed(uploads) ==>
      exists u :: u in uploads && u.parsed.Unsupported? && r.outcome.error == UnsupportedError(u.parsed.suffix) &&
        (forall v :: v in uploads && !LexLe(u.name, v.name) ==> v.parsed.Text?)
    ensures AllParsed(uploads) && BuildRecords(ParsedFiles(uploads)) == [] ==>
              r == Rebuilt(IndexState(None, Some([])), Ok(0))
    ensures AllParsed(uploads) && BuildRecords(ParsedFiles(uploads)) != [] ==>
              (r.outcome.Ok? <==> EmbedTexts(RecordTexts(BuildRecords(ParsedFiles(uploads))), tokenConfigured, reply).Ok?)
    ensures AllParsed(uploads) && BuildRecords(ParsedFiles(uploads)) != [] && r.outcome.Err? ==>
              && r.state == before
              && r.outcome.error == EmbedTexts(RecordTexts(BuildRecords(ParsedFiles(uploads))), tokenConfigured, reply).error
    ensures AllParsed(uploads) && BuildRecords(ParsedFiles(uploads)) != [] && r.outcome.Ok? ==>
              && r.state.index == Some(EmbedTexts(RecordTexts(BuildRecords(ParsedFiles(uploads))), tokenConfigured, reply).value)
              && r.state.mapping == Some(BuildRecords(ParsedFiles(uploads)))
              && r.outcome.value == |BuildRecords(ParsedFiles(uploads))|
    ensures r.outcome.Ok? ==> AllParsed(uploads) && r.state.mapping == Some(BuildRecords(ParsedFiles(uploads)))
    ensures r.outcome.Ok? && r.state.index.Some? ==> |r.state.index.value| == |BuildRecords(ParsedFiles(uploads))|
  {
    var sorted := SortBy(uploads, UploadLe);
    match FirstUnsupported(sorted)
    case Some(k) =>
      FirstRefusedIsFirstByName(uploads, k);
      Rebuilt(before, Err(UnsupportedError(sorted[k].parsed.suffix)))
    case None =>
      assert AllParsed(uploads) by { SortByMembers(uploads, UploadLe); AllParsedOfMembers(sorted, uploads); }
      var records := BuildRecords(ParsedFiles(uploads));
      if records == [] then Rebuilt(IndexState(None, Some([])), Ok(0))
      else
        match EmbedTexts(RecordTexts(records), tokenConfigured, reply)
        case Err(e) => Rebuilt(before, Err(e))
        case Ok(vectors) => Rebuilt(IndexState(Some(vectors), Some(records)), Ok(|records|))
  }

  /** If every file of `a` parses, so does every file of `b` drawn from it. */
  lemma AllParsedOfMembers(a: seq<Upload>, b: seq<Upload>)
    requires AllParsed(a)
    requires forall x :: x in b ==> x in a
    ensures AllParsed(b)
  {
    forall k | 0 <= k < |b|
      ensures b[k].parsed.Text?
    {
      assert b[k] in b;
      var j :| 0 <= j < |a| && a[j] == b[k];
    }
  }

  /** The first refused file in name order is a refused upload, and every
      upload whose name sorts strictly before it is accepted. */
  lemma {:induction false} FirstRefusedIsFirstByName(uploads: seq<Upload>, k: nat)
    requires FirstUnsupported(SortBy(uploads, UploadLe)) == Some(k)
    ensures var u := SortBy(uploads, UploadLe)[k];
      && u in uploads && u.parsed.Unsupported?
      && forall v :: v in uploads && !LexLe(u.name, v.name) ==> v.parsed.Text?
  {
    var sorted := SortBy(uploads, UploadLe);
    var u := sorted[k];
    SortByMembers(uploads, UploadLe);
    UploadLeIsTotalPreorder();
    SortBySorted(uploads, UploadLe);
    assert u in sorted;
    LexLeTotal(u.name, u.name);
    // every upload from position k on sorts at or after `u`
    assert forall j :: k <= j < |sorted| ==> LexLe(u.name, sorted[j].name);
    forall v | v in uploads && !LexLe(u.name, v.name)
      ensures v.parsed.Text?
    {
      assert v in sorted;
      var j :| 0 <= j < |sorted| && sorted[j] == v;
    }
  }

  // ----------------------------------------------------- search_project_chunks

  /** One (score, index) pair of FAISS's answer; index -1 pads a short answer. */
  datatype Hit<S> = Hit(score: S, index: int)

  datatype SearchResult<S> = SearchResult(score: S, source: string, chunkIndex: nat, text: string)

  predicate InRange<S>(h: Hit<S>, mapping: seq<IndexRecord>) {
    0 <= h.index < |mapping|
  }

  function ResultOf<S>(h: Hit<S>, mapping: seq<IndexRecord>): SearchResult<S>
    requires InRange(h, mapping)
  {
    var item := mapping[h.index];
    SearchResult(h.score, item.source, item.chunkIndex, item.text)
  }

  /** Positions j..|hits| - 1 of the hits whose index is inside the mapping,
      in increasing order. */
  function KeptPositions<S>(hits: seq<Hit<S>>, mapping: seq<IndexRecord>, j: nat): (ps: seq<nat>)
    requires j <= |hits|
    ensures forall k :: 0 <= k < |ps| ==> j <= ps[k] < |hits| && InRange(hits[ps[k]], mapping)
    ensures forall k :: 0 <= k < |ps| - 1 ==> ps[k] < ps[k + 1]
    ensures forall i :: j <= i < |hits| && InRange(hits[i], mapping) ==> i in ps
    decreases |hits| - j
  {
    if j == |hits| then []
    else
      var rest := KeptPositions(hits, mapping, j + 1);
      if InRange(hits[j], mapping) then [j] + rest else rest
  }

  /** The loop of `search_project_chunks` from hit j on: out-of-range hits are
      skipped, the others copied with their mapping entry. The kept results
      are exactly the in-range hits, in hit order, each carrying its hit's
      score and the source, chunk index and text of the mapping entry it
      points at. */
  function KeepHits<S>(hits: seq<Hit<S>>, mapping: seq<IndexRecord>, j: nat): (r: seq<SearchResult<S>>)
    requires j <= |hits|
    ensures |r| == |KeptPositions(hits, mapping, j)|
    ensures forall k :: 0 <= k < |r| ==> r[k] == ResultOf(hits[KeptPositions(hits, mapping, j)[k]], mapping)
    decreases |hits| - j
  {
    if j == |hits| then []
    else
      var rest := KeepHits(hits, mapping, j + 1);
      var prest := KeptPositions(hits, mapping, j + 1);
      if InRange(hits[j], mapping) then
        PrependKept(hits, mapping, j, rest, prest);
        [ResultOf(hits[j], mapping)] + rest
      else
        rest
  }

  /** Keeping hit j in front of the results kept after it keeps result and
      position aligned. */
  lemma PrependKept<S>(hits: seq<Hit<S>>, mapping: seq<IndexRecord>, j: nat, rest: seq<SearchResult<S>>, prest: seq<nat>)
    requires j < |hits| && InRange(hits[j], mapping)
    requires |rest| == |prest|
    requires forall k :: 0 <= k < |prest| ==> prest[k] < |hits| && InRange(hits[prest[k]], mapping)
    requires forall k :: 0 <= k < |rest| ==> rest[k] == ResultOf(hits[prest[k]], mapping)
    ensures forall k :: 0 <= k < |rest| + 1 ==>
      ([j] + prest)[k] < |hits| && InRange(hits[([j] + prest)[k]], mapping) &&
      ([ResultOf(hits[j], mapping)] + rest)[k] == ResultOf(hits[([j] + prest)[k]], mapping)
  {
    forall k | 0 <= k < |rest| + 1
      ensures ([j] + prest)[k] < |hits| && InRange(hits[([j] + prest)[k]], mapping)
      ensures ([ResultOf(hits[j], mapping)] + rest)[k] == ResultOf(hits[([j] + prest)[k]], mapping)
    {
      if k > 0 {
        assert ([j] + prest)[k] == prest[k - 1];
      }
    }
  }

  /** An empty mapping keeps no hit. */
  lemma {:induction false} KeptNoneOfEmpty<S>(hits: seq<Hit<S>>, j: nat)
    requires j <= |hits|
    ensures KeptPositions(hits, [], j) == []
    decreases |hits| - j
  {
    if j < |hits| {
      KeptNoneOfEmpty(hits, j + 1);
    }
  }

  /** `search_project_chunks`, given the index directory, the embedding
      service's reply for the query and FAISS's answer (`top_k` hits). A
      missing index or mapping, or an empty mapping, gives no results
      without embedding the query. */
  function SearchChunks<V, S>(state: IndexState<V>, query: string, tokenConfigured: bool, reply: EmbeddingReply<V>, hits: seq<Hit<S>>): (r: Result<seq<SearchResult<S>>, HttpError>)
    ensures state.index.None? || state.mapping.None? || state.mapping == Some([]) ==> r == Ok([])
    ensures r.Err? ==> EmbedTexts([query], tokenConfigured, reply).Err? && r.error == EmbedTexts([query], tokenConfigured, reply).error
    ensures state.index.Some? && state.mapping.Some? && state.mapping.value != [] ==>
      (r.Err? <==> EmbedTexts([query], tokenConfigured, reply).Err?)
    ensures r.Ok? && r.value != [] ==> state.index.Some? && state.mapping.Some? && |r.value| <= |hits|
  {
    if state.index.None? || state.mapping.None? then Ok([])
    else if state.mapping.value == [] then Ok([])
    else
      match EmbedTexts([query], tokenConfigured, reply)
      case Err(e) => Err(e)
      case Ok(_) =>
        var mapping := state.mapping.value;
        KeptLength(hits, mapping, 0);
        Ok(KeepHits(hits, mapping, 0))
  }

  lemma {:induction false} KeptLength<S>(hits: seq<Hit<S>>, mapping: seq<IndexRecord>, j: nat)
    requires j <= |hits|
    ensures |KeptPositions(hits, mapping, j)| <= |hits| - j
    decreases |hits| - j
  {
    if j < |hits| {
      KeptLength(hits, mapping, j + 1);
    }
  }

  /** Search results keep only hits whose index lies in [0, len(mapping)),
      in hit order, copying source, chunk index and text from the entry. */
  lemma SearchResultsSpec<V, S>(state: IndexState<V>, query: string, tokenConfigured: bool, reply: EmbeddingReply<V>, hits: seq<Hit<S>>)
    requires state.index.Some? && state.mapping.Some?
    requires SearchChunks(state, query, tokenConfigured, reply, hits).Ok?
    ensures var rs := SearchChunks(state, query, tokenConfigured, reply, hits).value;
      var ps := KeptPositions(hits, state.mapping.value, 0);
      && |rs| == |ps|
      && (forall k :: 0 <= k < |rs| ==> rs[k] == ResultOf(hits[ps[k]], state.mapping.value))
      && (forall i :: 0 <= i < |hits| && InRange(hits[i], state.mapping.value) ==> i in ps)
  {
    if state.mapping.value == [] {
      KeptNoneOfEmpty(hits, 0);
    }
  }

  /** After a rebuild that found no chunks, every search returns no results. */
  lemma SearchAfterEmptyRebuild<V, S>(before: IndexState<V>, uploads: seq<Upload>, tokenConfigured: bool, reply: EmbeddingReply<V>,
                                       query: string, queryReply: EmbeddingReply<V>, hits: seq<Hit<S>>)
    requires AllParsed(uploads) && BuildRecords(ParsedFiles(uploads)) == []
    ensures SearchChunks(RebuildIndex(before, uploads, tokenConfigured, reply).state, query, tokenConfigured, queryReply, hits) == Ok([])
  {
  }
}

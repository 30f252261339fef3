/** `chunk_and_preprocess_docs` from src/rag_project/chunker.py: clean the
    loaded records, wrap them as documents, split each document's text with
    a token splitter, number the pieces of each document from 1, copy the
    document's metadata into every piece, and convert the pieces back into
    documents. Every exception raised on the way is re-raised as an
    `EmbeddingError`.

    The splitter (`TokenTextSplitter` with its token encoding), the
    configuration file and the language model are not part of this model:
    they are parameters. */
module Chunker {
  import opened PyValues
  import opened Utils

  /** The exception that escaped inside the `try`, kept as the cause. */
  datatype Cause =
    | ConfigError        // load_config() failed or a configuration key is missing
    | AttributeError     // a record is not a dictionary, so `item.get` fails
    | UnboundLocalError  // `cleaned_entry` read at line 32 when `docs` is empty
    | SplitterError      // the TokenTextSplitter constructor raised
    | SplitError         // split_text raised

  datatype EmbeddingError = EmbeddingError(cause: Cause)

  /** The three settings read at lines 17-19. */
  datatype Settings = Settings(chunkSize: Value, chunkOverlap: Value, encoding: Value)

  /** The dictionary built at lines 26-31. */
  datatype CleanedEntry = CleanedEntry(id: Value, title: string, content: string, username: string)

  /** A langchain `Document`: page content and a metadata dictionary. */
  datatype Document = Document(pageContent: string, metadata: map<string, Value>)

  /** The dictionary built at lines 57-63. */
  datatype ChunkRecord = ChunkRecord(id: Value, title: Value, username: Value, chunkNumber: int, content: string)

  /** `token_splitter.split_text`; None when it raises. */
  type SplitText = string -> Option<seq<string>>

  /** `TokenTextSplitter(encoding_name=..., chunk_size=..., chunk_overlap=...)`;
      None when the constructor raises. */
  type MakeSplitter = (Value, Value, Value) -> Option<SplitText>

  /** How a record field is normalised. */
  type Normaliser = Value -> string

  /** `preprocess_text(value, nlp)` with the module-level `nlp` (lines 28-30). */
  function PreprocessWith(nlp: Nlp, alnum: char -> bool): Normaliser
  {
    v => Preprocess(v, nlp, alnum)
  }

  /** Lines 16-19, given what `load_config()` returned (None: it raised). */
  function ReadSettings(config: Option<Value>): (r: Option<Settings>)
    ensures r.Some? <==> (config.Some? && Index(config.value, "chunking").Some? &&
                          Index(Index(config.value, "chunking").value, "chunk_size").Some? &&
                          Index(Index(config.value, "chunking").value, "chunk_overlap").Some? &&
                          Index(Index(config.value, "chunking").value, "encoding").Some?)
    ensures r.Some? ==> config.value.fields["chunking"].fields["chunk_size"] == r.value.chunkSize
    ensures r.Some? ==> config.value.fields["chunking"].fields["chunk_overlap"] == r.value.chunkOverlap
    ensures r.Some? ==> config.value.fields["chunking"].fields["encoding"] == r.value.encoding
  {
    if config.None? then None
    else match Index(config.value, "chunking")
      case None => None
      case Some(chunking) =>
        match Index(chunking, "chunk_size")
        case None => None
        case Some(size) =>
          match Index(chunking, "chunk_overlap")
          case None => None
          case Some(overlap) =>
            match Index(chunking, "encoding")
            case None => None
            case Some(encoding) => Some(Settings(size, overlap, encoding))
  }

  /** One iteration of the cleaning loop (lines 26-31). */
  function CleanEntry(item: Value, normalize: Normaliser): Result<CleanedEntry, Cause>
  {
    if !item.Obj? then Failure(AttributeError)
    else
      var f := item.fields;
      Success(CleanedEntry(
        GetOr(f, "id", Null),
        normalize(GetOr(f, "title", Str(""))),
        normalize(GetOr(f, "publication_description", Str(""))),
        normalize(GetOr(f, "username", Str("")))))
  }

  /** The value of `cleaned_entry` after the loop at lines 25-31 ran over
      `docs` (None: never bound). */
  function CleanLoop(docs: seq<Value>, normalize: Normaliser): Result<Option<CleanedEntry>, Cause>
    decreases |docs|
  {
    if docs == [] then Success(None)
    else match CleanLoop(docs[..|docs| - 1], normalize)
      case Failure(c) => Failure(c)
      case Success(_) =>
        match CleanEntry(docs[|docs| - 1], normalize)
        case Failure(c) => Failure(c)
        case Success(e) => Success(Some(e))
  }

  /** `cleaned_data` after the single `append` at line 32, which sits after the loop. */
  function CleanedData(docs: seq<Value>, normalize: Normaliser): Result<seq<CleanedEntry>, Cause>
  {
    match CleanLoop(docs, normalize)
    case Failure(c) => Failure(c)
    case Success(None) => Failure(UnboundLocalError)
    case Success(Some(e)) => Success([e])
  }

  predicate AllDicts(docs: seq<Value>)
  {
    forall i :: 0 <= i < |docs| ==> docs[i].Obj?
  }

  /** The document built for one cleaned entry (lines 35-39). */
  function DocumentOf(e: CleanedEntry): Document
  {
    Document(e.content, map["id" := e.id, "title" := Str(e.title), "username" := Str(e.username)])
  }

  /** `documents_with_metadata` (lines 34-41). */
  function ToDocuments(cleaned: seq<CleanedEntry>): seq<Document>
  {
    seq(|cleaned|, i requires 0 <= i < |cleaned| => DocumentOf(cleaned[i]))
  }

  /** The chunk dictionary for piece number `n` of `doc` (lines 57-63). */
  function ChunkOf(doc: Document, n: int, piece: string): ChunkRecord
  {
    ChunkRecord(GetOr(doc.metadata, "id", Null), GetOr(doc.metadata, "title", Null),
                GetOr(doc.metadata, "username", Null), n, piece)
  }

  /** What the inner loop (lines 56-64) appends for the pieces `ps` of `doc`. */
  function NumberPieces(doc: Document, ps: seq<string>): seq<ChunkRecord>
    decreases |ps|
  {
    if ps == [] then []
    else NumberPieces(doc, ps[..|ps| - 1]) + [ChunkOf(doc, |ps|, ps[|ps| - 1])]
  }

  /** `chunked_documents` after the outer loop (lines 54-64) ran over `ds`. */
  function ChunkDocs(ds: seq<Document>, split: SplitText): Result<seq<ChunkRecord>, Cause>
    decreases |ds|
  {
    if ds == [] then Success([])
    else match ChunkDocs(ds[..|ds| - 1], split)
      case Failure(c) => Failure(c)
      case Success(prev) =>
        match split(ds[|ds| - 1].pageContent)
        case None => Failure(SplitError)
        case Some(ps) => Success(prev + NumberPieces(ds[|ds| - 1], ps))
  }

  /** One element of `langchain_chunks` (lines 69-75). */
  function LangchainChunk(rec: ChunkRecord): Document
  {
    Document(rec.content, map["id" := rec.id, "title" := rec.title, "username" := rec.username,
                              "chunk_number" := Int(rec.chunkNumber)])
  }

  /** `langchain_chunks` (lines 68-76). */
  function ToLangchain(recs: seq<ChunkRecord>): seq<Document>
  {
    seq(|recs|, i requires 0 <= i < |recs| => LangchainChunk(recs[i]))
  }

  /** The whole of `chunk_and_preprocess_docs` as one function of its inputs. */
  function ChunkAndPreprocess(docs: seq<Value>, normalize: Normaliser,
                              config: Option<Value>, makeSplitter: MakeSplitter): Result<seq<Document>, EmbeddingError>
  {
    match ReadSettings(config)
    case None => Failure(EmbeddingError(ConfigError))
    case Some(settings) =>
      match CleanedData(docs, normalize)
      case Failure(c) => Failure(EmbeddingError(c))
      case Success(cleaned) =>
        match makeSplitter(settings.encoding, settings.chunkSize, settings.chunkOverlap)
        case None => Failure(EmbeddingError(SplitterError))
        case Some(split) =>
          match ChunkDocs(ToDocuments(cleaned), split)
          case Failure(c) => Failure(EmbeddingError(c))
          case Success(recs) => Success(ToLangchain(recs))
  }

  /** The cleaning loop and the append after it (lines 23-32). */
  method CleanRecords(docs: seq<Value>, normalize: Normaliser) returns (r: Result<seq<CleanedEntry>, Cause>)
    ensures r == CleanedData(docs, normalize)
  {
    var cleanedData: seq<CleanedEntry> := [];
    var cleanedEntry: Option<CleanedEntry> := None;
    var i := 0;
    while i < |docs|
      invariant 0 <= i <= |docs|
      invariant CleanLoop(docs[..i], normalize) == Success(cleanedEntry)
    {
      var entry := CleanEntry(docs[i], normalize);
      if entry.Failure? {
        CleanLoopResult(docs, normalize);
        CleanEntrySucceeds(docs[i], normalize);
        return Failure(entry.error);
      }
      assert docs[..i + 1][..i] == docs[..i];
      cleanedEntry := Some(entry.value);
      i := i + 1;
    }
    assert docs[..i] == docs;
    if cleanedEntry.None? {
      return Failure(UnboundLocalError);
    }
    cleanedData := cleanedData + [cleanedEntry.value];
    assert cleanedData == [cleanedEntry.value];
    r := Success(cleanedData);
  }

  /** The nested chunking loops (lines 52-64). */
  method ChunkDocuments(documents: seq<Document>, split: SplitText) returns (r: Result<seq<ChunkRecord>, Cause>)
    ensures r == ChunkDocs(documents, split)
  {
    var chunked: seq<ChunkRecord> := [];
    var d := 0;
    while d < |documents|
      invariant 0 <= d <= |documents|
      invariant ChunkDocs(documents[..d], split) == Success(chunked)
    {
      var doc := documents[d];
      var chunks := split(doc.pageContent);
      if chunks.None? {
        ChunkDocsSucceeds(documents, split);
        SplitAllPrefix(documents, split, d);
        return Failure(SplitError);
      }
      var pieces := chunks.value;
      ghost var before := chunked;
      var k := 0;
      while k < |pieces|
        invariant 0 <= k <= |pieces|
        invariant chunked == before + NumberPieces(doc, pieces[..k])
      {
        assert pieces[..k + 1][..k] == pieces[..k];
        chunked := chunked + [ChunkOf(doc, k + 1, pieces[k])];
        k := k + 1;
      }
      assert pieces[..k] == pieces;
      assert documents[..d + 1][..d] == documents[..d];
      d := d + 1;
    }
    assert documents[..d] == documents;
    r := Success(chunked);
  }

  /** `chunk_and_preprocess_docs(docs, lang_model)`, with the module-level
      `nlp`, the configuration that `load_config()` returns and the splitter
      constructor as parameters. `langModel` is accepted and ignored, as in
      the source: the records are cleaned with the module-level `nlp`. */
  method ChunkAndPreprocessDocs(docs: seq<Value>, langModel: Nlp, nlp: Nlp, alnum: char -> bool,
                                config: Option<Value>, makeSplitter: MakeSplitter)
    returns (r: Result<seq<Document>, EmbeddingError>)
    ensures r == ChunkAndPreprocess(docs, PreprocessWith(nlp, alnum), config, makeSplitter)
  {
    var settings := ReadSettings(config);
    if settings.None? {
      return Failure(EmbeddingError(ConfigError));
    }
    var chunkSize, chunkOverlap, encoding :=
      settings.value.chunkSize, settings.value.chunkOverlap, settings.value.encoding;
    var cleanedData := CleanRecords(docs, PreprocessWith(nlp, alnum));
    if cleanedData.Failure? {
      return Failure(EmbeddingError(cleanedData.error));
    }
    var documents := ToDocuments(cleanedData.value);
    var splitter := makeSplitter(encoding, chunkSize, chunkOverlap);
    if splitter.None? {
      return Failure(EmbeddingError(SplitterError));
    }
    var chunked := ChunkDocuments(documents, splitter.value);
    if chunked.Failure? {
      return Failure(EmbeddingError(chunked.error));
    }
    r := Success(ToLangchain(chunked.value));
  }

  // ----------------------------------------------------------------------
  // The cleaning loop.

  /** What the cleaning loop leaves in `cleaned_entry`: an AttributeError if
      any record is not a dictionary, nothing for no records, and otherwise
      the entry of the LAST record only. */
  lemma {:induction false} CleanLoopResult(docs: seq<Value>, normalize: Normaliser)
    ensures !AllDicts(docs) ==> CleanLoop(docs, normalize) == Failure(AttributeError)
    ensures AllDicts(docs) && docs == [] ==> CleanLoop(docs, normalize) == Success(None)
    ensures AllDicts(docs) && docs != [] ==>
              CleanLoop(docs, normalize) == Success(Some(CleanEntry(docs[|docs| - 1], normalize).value))
    decreases |docs|
  {
    if docs != [] {
      var pre, last := docs[..|docs| - 1], docs[|docs| - 1];
      CleanLoopResult(pre, normalize);
      assert AllDicts(docs) <==> AllDicts(pre) && last.Obj? by {
        assert forall i :: 0 <= i < |pre| ==> pre[i] == docs[i];
      }
      CleanEntrySucceeds(last, normalize);
    }
  }

  /** Cleaning a record fails exactly when it is not a dictionary. */
  lemma CleanEntrySucceeds(item: Value, normalize: Normaliser)
    ensures CleanEntry(item, normalize).Success? <==> item.Obj?
    ensures CleanEntry(item, normalize).Failure? ==> CleanEntry(item, normalize).error == AttributeError
  {
  }

  /** With all records dictionaries and at least one of them, `cleaned_data`
      holds exactly one entry, built from the last record. */
  lemma OnlyLastRecordKept(docs: seq<Value>, normalize: Normaliser)
    requires AllDicts(docs) && docs != []
    ensures CleanedData(docs, normalize) == Success([CleanEntry(docs[|docs| - 1], normalize).value])
  {
    CleanLoopResult(docs, normalize);
  }

  /** The cleaned entry: `id` copied unchanged (None when absent), and the
      title, description and user name each normalised by `preprocess_text`
      with the module-level model; a missing key is normalised as "" and a
      present non-string value gives "". */
  lemma CleanEntryFields(fields: map<string, Value>, nlp: Nlp, alnum: char -> bool)
    ensures CleanEntry(Obj(fields), PreprocessWith(nlp, alnum)).Success?
    ensures var e := CleanEntry(Obj(fields), PreprocessWith(nlp, alnum)).value;
            && e.id == (if "id" in fields then fields["id"] else Null)
            && e.title == Preprocess(if "title" in fields then fields["title"] else Str(""), nlp, alnum)
            && e.content == Preprocess(if "publication_description" in fields
                                       then fields["publication_description"] else Str(""), nlp, alnum)
            && e.username == Preprocess(if "username" in fields then fields["username"] else Str(""), nlp, alnum)
            && ("title" in fields && !fields["title"].Str? ==> e.title == "")
            && ("publication_description" in fields && !fields["publication_description"].Str? ==> e.content == "")
            && ("username" in fields && !fields["username"].Str? ==> e.username == "")
  {
  }

  // ----------------------------------------------------------------------
  // Numbering and metadata.

  /** The pieces of one document are numbered 1..k in the order the splitter
      returned them, each carrying its piece as content. */
  lemma {:induction false} NumberPiecesSpec(doc: Document, ps: seq<string>)
    ensures |NumberPieces(doc, ps)| == |ps|
    ensures forall k :: 0 <= k < |ps| ==> NumberPieces(doc, ps)[k] == ChunkOf(doc, k + 1, ps[k])
    decreases |ps|
  {
    if ps != [] {
      NumberPiecesSpec(doc, ps[..|ps| - 1]);
    }
  }

  /** A chunk of a document built from a cleaned entry carries exactly that
      entry's `id`, `title` and `username`. */
  lemma ChunkCopiesMetadata(e: CleanedEntry, n: int, piece: string)
    ensures ChunkOf(DocumentOf(e), n, piece) == ChunkRecord(e.id, Str(e.title), Str(e.username), n, piece)
  {
    var m := DocumentOf(e).metadata;
    assert "id" in m && "title" in m && "username" in m;
    assert m["id"] == e.id && m["title"] == Str(e.title) && m["username"] == Str(e.username);
  }

  /** `split_text` of every document, if none raised. */
  function SplitAll(ds: seq<Document>, split: SplitText): (r: Option<seq<seq<string>>>)
    ensures r.Some? ==> |r.value| == |ds| && forall j :: 0 <= j < |ds| ==> split(ds[j].pageContent) == Some(r.value[j])
    ensures r.None? ==> exists j :: 0 <= j < |ds| && split(ds[j].pageContent).None?
    decreases |ds|
  {
    if ds == [] then Some([])
    else match SplitAll(ds[..|ds| - 1], split)
      case None =>
        assert forall j :: 0 <= j < |ds| - 1 ==> ds[..|ds| - 1][j] == ds[j];
        None
      case Some(pre) =>
        match split(ds[|ds| - 1].pageContent)
        case None => None
        case Some(p) =>
          assert forall j :: 0 <= j < |ds| - 1 ==> ds[..|ds| - 1][j] == ds[j];
          Some(pre + [p])
  }

  /** A split that raises makes the whole of `SplitAll` fail. */
  lemma SplitAllPrefix(ds: seq<Document>, split: SplitText, d: nat)
    requires d < |ds| && split(ds[d].pageContent).None?
    ensures SplitAll(ds, split).None?
  {
  }

  /** Total number of pieces. */
  function TotalLen(ps: seq<seq<string>>): nat
    decreases |ps|
  {
    if ps == [] then 0 else TotalLen(ps[..|ps| - 1]) + |ps[|ps| - 1]|
  }

  /** Number of pieces of the documents before document `j`. */
  function Offset(ps: seq<seq<string>>, j: nat): nat
    requires j <= |ps|
  {
    TotalLen(ps[..j])
  }

  /** The outer loop succeeds exactly when no call of `split_text` raises,
      and otherwise fails with the splitter's error. */
  lemma {:induction false} ChunkDocsSucceeds(ds: seq<Document>, split: SplitText)
    ensures ChunkDocs(ds, split).Success? <==> SplitAll(ds, split).Some?
    ensures ChunkDocs(ds, split).Failure? ==> ChunkDocs(ds, split).error == SplitError
    decreases |ds|
  {
    if ds != [] {
      ChunkDocsSucceeds(ds[..|ds| - 1], split);
    }
  }

  /** The outer loop emits one chunk per piece of every document. */
  lemma {:induction false} ChunkDocsLength(ds: seq<Document>, split: SplitText)
    requires SplitAll(ds, split).Some?
    ensures ChunkDocs(ds, split).Success?
    ensures |ChunkDocs(ds, split).value| == TotalLen(SplitAll(ds, split).value)
    decreases |ds|
  {
    ChunkDocsSucceeds(ds, split);
    if ds != [] {
      var pre := ds[..|ds| - 1];
      ChunkDocsLength(pre, split);
      var p := split(ds[|ds| - 1].pageContent).value;
      NumberPiecesSpec(ds[|ds| - 1], p);
      var ps := SplitAll(ds, split).value;
      assert ps == SplitAll(pre, split).value + [p];
      assert ps[..|ps| - 1] == SplitAll(pre, split).value;
    }
  }

  /** The chunks of document `j` are exactly its numbered pieces, placed
      right after the chunks of the documents before it. */
  lemma {:induction false} ChunkDocsBlock(ds: seq<Document>, split: SplitText, j: nat)
    requires SplitAll(ds, split).Some? && j < |ds|
    ensures ChunkDocs(ds, split).Success?
    ensures BlockAt(ChunkDocs(ds, split).value, SplitAll(ds, split).value, j,
                    NumberPieces(ds[j], SplitAll(ds, split).value[j]))
    decreases |ds|
  {
    if j == |ds| - 1 {
      ChunkDocsBlockLast(ds, split);
    } else {
      var outPre, psPre, p := ChunkDocsLast(ds, split);
      var pre := ds[..|ds| - 1];
      ChunkDocsBlock(pre, split, j);
      assert ds[j] == pre[j];
      BlockKept(outPre, NumberPieces(ds[|ds| - 1], p), psPre, p, j, NumberPieces(ds[j], psPre[j]));
    }
  }

  /** `out` holds `blk` at the place of block `j` of the piece lists `ps`:
      after the pieces of the blocks before it. */
  predicate BlockAt(out: seq<ChunkRecord>, ps: seq<seq<string>>, j: nat, blk: seq<ChunkRecord>)
  {
    j < |ps| && Offset(ps, j) + |ps[j]| <= |out| &&
    out[Offset(ps, j)..Offset(ps, j) + |ps[j]|] == blk
  }

  /** Appending the chunks of one more document leaves earlier blocks in place. */
  lemma BlockKept(outPre: seq<ChunkRecord>, tail: seq<ChunkRecord>, psPre: seq<seq<string>>, p: seq<string>, j: nat, blk: seq<ChunkRecord>)
    requires BlockAt(outPre, psPre, j, blk)
    ensures BlockAt(outPre + tail, psPre + [p], j, blk)
  {
    var a := Offset(psPre, j);
    AppendSlice(psPre, [p], 0, j);
    AppendSlice(outPre, tail, a, a + |psPre[j]|);
  }

  /** `ChunkDocsBlock` for the last document. */
  lemma ChunkDocsBlockLast(ds: seq<Document>, split: SplitText)
    requires SplitAll(ds, split).Some? && ds != []
    ensures ChunkDocs(ds, split).Success?
    ensures BlockAt(ChunkDocs(ds, split).value, SplitAll(ds, split).value, |ds| - 1,
                    NumberPieces(ds[|ds| - 1], SplitAll(ds, split).value[|ds| - 1]))
  {
    var outPre, psPre, p := ChunkDocsLast(ds, split);
    AppendSlice(psPre, [p], 0, |psPre|);
    AppendTail(outPre, NumberPieces(ds[|ds| - 1], p));
  }

  /** A slice within the first part of a concatenation. */
  lemma AppendSlice<T>(a: seq<T>, b: seq<T>, i: nat, k: nat)
    requires i <= k <= |a|
    ensures (a + b)[i..k] == a[i..k]
  {
  }

  /** The second part of a concatenation, as a slice. */
  lemma AppendTail<T>(a: seq<T>, b: seq<T>)
    ensures (a + b)[|a|..|a| + |b|] == b
  {
  }

  /** The outer loop's result over `ds`, split at its last document. */
  lemma ChunkDocsLast(ds: seq<Document>, split: SplitText)
      returns (outPre: seq<ChunkRecord>, psPre: seq<seq<string>>, p: seq<string>)
    requires SplitAll(ds, split).Some? && ds != []
    ensures ChunkDocs(ds, split).Success? && ChunkDocs(ds[..|ds| - 1], split).Success?
    ensures SplitAll(ds[..|ds| - 1], split) == Some(psPre) && ChunkDocs(ds[..|ds| - 1], split).value == outPre
    ensures |psPre| == |ds| - 1
    ensures split(ds[|ds| - 1].pageContent) == Some(p)
    ensures ChunkDocs(ds, split).value == outPre + NumberPieces(ds[|ds| - 1], p)
    ensures SplitAll(ds, split).value == psPre + [p]
    ensures |outPre| == TotalLen(psPre) && |NumberPieces(ds[|ds| - 1], p)| == |p|
  {
    var pre, last := ds[..|ds| - 1], ds[|ds| - 1];
    ChunkDocsSucceeds(ds, split);
    ChunkDocsLength(pre, split);
    p := split(last.pageContent).value;
    outPre, psPre := ChunkDocs(pre, split).value, SplitAll(pre, split).value;
    NumberPiecesSpec(last, p);
  }

  // ----------------------------------------------------------------------
  // The final conversion.

  /** Reads a chunk record back out of a converted document. */
  function FromLangchain(d: Document): ChunkRecord
  {
    var m := d.metadata;
    ChunkRecord(GetOr(m, "id", Null), GetOr(m, "title", Null), GetOr(m, "username", Null),
                match GetOr(m, "chunk_number", Null) case Int(n) => n case _ => 0,
                d.pageContent)
  }

  /** The final conversion is one-to-one, keeps the order, and loses none of
      `content`, `id`, `title`, `username` and `chunk_number`; each metadata
      dictionary has exactly those four keys. */
  lemma ToLangchainRoundTrip(recs: seq<ChunkRecord>)
    ensures |ToLangchain(recs)| == |recs|
    ensures forall i :: 0 <= i < |recs| ==> FromLangchain(ToLangchain(recs)[i]) == recs[i]
    ensures forall i :: 0 <= i < |recs| ==>
              ToLangchain(recs)[i].metadata.Keys == {"id", "title", "username", "chunk_number"}
  {
    forall i | 0 <= i < |recs| ensures FromLangchain(ToLangchain(recs)[i]) == recs[i] {
      var m := ToLangchain(recs)[i].metadata;
      assert m["id"] == recs[i].id && m["title"] == recs[i].title && m["username"] == recs[i].username;
      assert m["chunk_number"] == Int(recs[i].chunkNumber);
    }
  }

  // ----------------------------------------------------------------------
  // The whole function.

  /** The documents built from a single cleaned entry are chunked by
      splitting that entry's content once. */
  lemma SingleDocument(e: CleanedEntry, split: SplitText)
    ensures split(e.content).None? ==> ChunkDocs(ToDocuments([e]), split) == Failure(SplitError)
    ensures split(e.content).Some? ==>
              ChunkDocs(ToDocuments([e]), split) == Success(NumberPieces(DocumentOf(e), split(e.content).value))
  {
    var ds := ToDocuments([e]);
    assert ds == [DocumentOf(e)];
    assert ds[..0] == [];
    if split(e.content).Some? {
      var recs := NumberPieces(DocumentOf(e), split(e.content).value);
      assert ChunkDocs(ds, split) == Success([] + recs);
      assert [] + recs == recs;
    }
  }

  /** Every way the function can fail, and with which cause: the
      configuration cannot be read, a record is not a dictionary, there are
      no records, the splitter cannot be built, or splitting the kept record
      raises. */
  lemma PipelineErrors(docs: seq<Value>, normalize: Normaliser,
                       config: Option<Value>, makeSplitter: MakeSplitter)
    ensures ReadSettings(config).None? ==>
              ChunkAndPreprocess(docs, normalize, config, makeSplitter) == Failure(EmbeddingError(ConfigError))
    ensures ReadSettings(config).Some? && !AllDicts(docs) ==>
              ChunkAndPreprocess(docs, normalize, config, makeSplitter) == Failure(EmbeddingError(AttributeError))
    ensures ReadSettings(config).Some? && docs == [] ==>
              ChunkAndPreprocess(docs, normalize, config, makeSplitter) == Failure(EmbeddingError(UnboundLocalError))
  {
    CleanLoopResult(docs, normalize);
  }

  /** Once the configuration is read and the records are non-empty
      dictionaries, the call fails only if the splitter cannot be built or
      splitting the last record's content raises. */
  lemma PipelineSplitErrors(docs: seq<Value>, normalize: Normaliser,
                            config: Option<Value>, makeSplitter: MakeSplitter)
    requires ReadSettings(config).Some? && AllDicts(docs) && docs != []
    ensures var st := ReadSettings(config).value;
            var sp := makeSplitter(st.encoding, st.chunkSize, st.chunkOverlap);
            var e := CleanEntry(docs[|docs| - 1], normalize).value;
            var r := ChunkAndPreprocess(docs, normalize, config, makeSplitter);
            && (sp.None? ==> r == Failure(EmbeddingError(SplitterError)))
            && (sp.Some? && sp.value(e.content).None? ==> r == Failure(EmbeddingError(SplitError)))
            && (sp.Some? && sp.value(e.content).Some? ==> r.Success?)
  {
    var e := CleanEntry(docs[|docs| - 1], normalize).value;
    OnlyLastRecordKept(docs, normalize);
    var st := ReadSettings(config).value;
    var sp := makeSplitter(st.encoding, st.chunkSize, st.chunkOverlap);
    if sp.Some? {
      SingleDocument(e, sp.value);
    }
  }

  /** Converted chunks of one cleaned entry: piece `k` becomes a document
      with the piece as content and the entry's metadata, numbered `k + 1`. */
  lemma EntryChunks(e: CleanedEntry, pieces: seq<string>)
    ensures var out := ToLangchain(NumberPieces(DocumentOf(e), pieces));
            && |out| == |pieces|
            && forall k :: 0 <= k < |pieces| ==>
                 out[k] == Document(pieces[k], map["id" := e.id, "title" := Str(e.title),
                                                  "username" := Str(e.username), "chunk_number" := Int(k + 1)])
  {
    var recs := NumberPieces(DocumentOf(e), pieces);
    NumberPiecesSpec(DocumentOf(e), pieces);
    var out := ToLangchain(recs);
    forall k | 0 <= k < |pieces|
      ensures out[k] == Document(pieces[k], map["id" := e.id, "title" := Str(e.title),
                                               "username" := Str(e.username), "chunk_number" := Int(k + 1)])
    {
      ChunkCopiesMetadata(e, k + 1, pieces[k]);
      assert recs[k] == ChunkRecord(e.id, Str(e.title), Str(e.username), k + 1, pieces[k]);
    }
  }

  /** On success the output is, in order, one document per piece of the last
      record's normalised description: the piece as content, that record's
      `id`, normalised `title` and `username`, and `chunk_number` 1..k. */
  lemma PipelineOutput(docs: seq<Value>, normalize: Normaliser,
                       config: Option<Value>, makeSplitter: MakeSplitter,
                       split: SplitText, pieces: seq<string>)
    requires ReadSettings(config).Some? && AllDicts(docs) && docs != []
    requires makeSplitter(ReadSettings(config).value.encoding, ReadSettings(config).value.chunkSize,
                          ReadSettings(config).value.chunkOverlap) == Some(split)
    requires split(CleanEntry(docs[|docs| - 1], normalize).value.content) == Some(pieces)
    ensures var e := CleanEntry(docs[|docs| - 1], normalize).value;
            ChunkAndPreprocess(docs, normalize, config, makeSplitter) ==
              Success(ToLangchain(NumberPieces(DocumentOf(e), pieces)))
  {
    var e := CleanEntry(docs[|docs| - 1], normalize).value;
    OnlyLastRecordKept(docs, normalize);
    SingleDocument(e, split);
  }
}

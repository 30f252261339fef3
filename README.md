# Cleaning and chunking of publication records

This project models the core of a small retrieval-augmented-generation
ingestion pipeline: `chunk_and_preprocess_docs` in
`src/rag_project/chunker.py` and the text normaliser `preprocess_text` in
`src/rag_project/utils.py`.

- `chunk_and_preprocess_docs` reads three settings from the `chunking`
  section of the configuration. It cleans every record into
  `{id, title, content, username}`, appends the cleaned entry to
  `cleaned_data`, and wraps each resulting entry as a document. Each
  document's text goes through a token splitter; the pieces are numbered
  from 1, every piece receives the document's `id`, `title` and `username`,
  and the results are converted back into documents. Any exception is
  re-raised as `EmbeddingError`.
- `preprocess_text` returns `""` for non-strings. On a string it applies a
  fixed chain of `re.sub` rewrites:
  1. HTML tags
  2. Markdown images
  3. `<img` tags
  4. URLs
  5. e-mail addresses
  6. hashtags
  7. whitespace collapsing and trimming
  8. non-ASCII characters

  It then lowercases the text, tokenises it with the spaCy model, and joins
  the lemmas of the tokens that are neither stop words nor punctuation with
  single spaces.

The model follows the code as written:

- The append at `chunker.py:32` sits after the `for` loop. So only the last
  record's cleaned entry is kept, and an empty record list leaves
  `cleaned_entry` unbound. The resulting `UnboundLocalError` is re-raised as
  `EmbeddingError`.
- Every failure is re-raised as `EmbeddingError` (chunker.py:82).
- The cleaning calls use the module-level `nlp`, not the `lang_model`
  argument. The model's method takes `langModel` and ignores it.

Modules:

- `PyValues` (values.dfy): JSON/YAML values, `dict.get` and `v[key]`, and
  the Option/Result wrappers.
- `ReSub` (resub.dfy): `re.sub` with a pattern that never matches the empty
  string, as a left-to-right scanner parameterised by a matcher. It holds
  Python's `\s` and `\w` classes and the generic lemmas: identity,
  deletion-only, and "no match left" for patterns whose matches consume a
  whole non-whitespace run.
- `Utils` (utils.dfy): each rewrite of `preprocess_text` as its own function
  with per-step properties, plus the final filter and join.
- `Chunker` (chunker.dfy):
  - `ChunkAndPreprocessDocs`, a method proved equal to the specification
    function `ChunkAndPreprocess`. Its two loops are the methods
    `CleanRecords` (the cleaning loop and the append after it) and
    `ChunkDocuments` (the nested chunking loops), each proved equal to its
    own specification function;
  - the lemmas about cleaning, numbering, layout, conversion and errors.
  The specification functions take the text normaliser as a parameter
  `normalize`. The method passes `preprocess_text` with the module-level
  model (`PreprocessWith(nlp, alnum)`), so everything proved about the
  chunker holds for that normaliser in particular.

Collaborators that do I/O or are foreign code are parameters:

- what `load_config()` returned (`None` when it raised);
- the splitter constructor and its `split_text` (`None` when they raise);
- the spaCy model, as a function from text to tokens
  `(lemma, is_stop, is_punct)`;
- for non-ASCII characters, Python's `str.isalnum` (used by `\w`).

## Model

| member | source | states |
|---|---|---|
| ReSub.SubIdentity | src/rag_project/utils.py:30-49 | if no position of the text is changed by a substitution starting there, `re.sub` returns the text unchanged |
| ReSub.SubDeletes | src/rag_project/utils.py:30-49 | with an empty replacement, `re.sub` output is a subsequence of its input (characters are only deleted) |
| ReSub.RunFree | src/rag_project/utils.py:37-40 | for a pattern whose matches consume the whole leading non-whitespace run, no match remains anywhere in the output |
| Utils.MatchTag | src/rag_project/utils.py:30 | a match is `<`, then the shortest newline-free text, then `>`; with no match after a `<`, every later `>` is preceded by a newline |
| Utils.TagStepLeavesNoTag | src/rag_project/utils.py:30 | after the tag step no `<` is followed by a `>` before the next newline |
| Utils.StripTagsIdempotent | src/rag_project/utils.py:30 | applying the tag step twice is the same as once |
| Utils.MatchMdImage | src/rag_project/utils.py:33 | a match starts with `![`, ends with `)`, has length at least 5 and contains no newline |
| Utils.MatchMdImageSpec | src/rag_project/utils.py:33 | a match is `![`, then the first `](` reachable without a newline that has a `)` after it on the same line, then the text up to the first such `)`; there is no match exactly when the text does not start with `![` or every such `](` comes after a newline |
| Utils.MdImageStepDeletes | src/rag_project/utils.py:33 | the Markdown-image step only deletes characters |
| Utils.ShortImage | src/rag_project/utils.py:33 | `![x](y)` matches with length exactly 7 when `x` is not a newline and `y` is neither a newline nor `)` (with `y` = `)` the match is `![x]()`, of length 6) |
| Utils.MdImageStepRecreates | src/rag_project/utils.py:33 | on `!![a](b)[c](d)` one pass leaves `![c](d)`, which is again an image |
| Utils.MatchImgTag | src/rag_project/utils.py:34 | a match is `<img` up to and including the first `>`, newlines included; there is no match when the text does not start with `<img` or has no later `>` |
| Utils.ImgTagStepDeletes | src/rag_project/utils.py:34 | the `<img` step only deletes characters |
| Utils.ImgTagStepRecreates | src/rag_project/utils.py:34 | on `<im<img>g>` one pass leaves `<img>`, which is again a match |
| Utils.HttpsAlternativeRedundant | src/rag_project/utils.py:37 | the URL pattern matches exactly where `http\S` or `www\S` starts the text; the `https` alternative adds nothing |
| Utils.MatchUrl | src/rag_project/utils.py:37 | a URL matches iff `http`, `www` or `https` is followed by a non-whitespace character, and the match then covers the whole non-whitespace run |
| Utils.UrlStepLeavesNoUrl | src/rag_project/utils.py:37 | after the URL step the URL pattern matches at no position |
| Utils.MatchEmail | src/rag_project/utils.py:40 | `\S+@\S+` matches iff the leading non-whitespace run has an `@` that is neither its first nor its last character; the match is the whole run |
| Utils.EmailStepLeavesNoEmail | src/rag_project/utils.py:40 | after the e-mail step `\S+@\S+` matches at no position |
| Utils.MatchHashtag | src/rag_project/utils.py:43 | a match is `#` and the longest following run of word characters, which must be non-empty; otherwise `#` is missing or is not followed by a word character |
| Utils.HashtagStepLeavesNoHashtag | src/rag_project/utils.py:43 | after the hashtag step no `#` is immediately followed by a word character |
| Utils.StripHashtagsIdempotent | src/rag_project/utils.py:43 | applying the hashtag step twice is the same as once |
| Utils.MatchSpaces | src/rag_project/utils.py:46 | `\s+` matches iff the text starts with whitespace, and then takes the whole whitespace run |
| Utils.TrimStart | src/rag_project/utils.py:46 | `lstrip()` removes exactly the leading whitespace: the result is a suffix of the text, everything removed is whitespace, and the result does not start with whitespace |
| Utils.TrimEnd | src/rag_project/utils.py:46 | `rstrip()` removes exactly the trailing whitespace: the result is a prefix of the text, everything removed is whitespace, and the result does not end with whitespace |
| Utils.CollapseSingleSpaced | src/rag_project/utils.py:46 | after `re.sub(r'\s+', ' ', ...)` every whitespace character is `' '`, no two are adjacent, and a non-whitespace first character is kept |
| Utils.TrimmedSlice | src/rag_project/utils.py:46 | `strip()` returns a contiguous slice of its input that, when non-empty, neither starts nor ends with whitespace |
| Utils.WhitespaceStepNormal | src/rag_project/utils.py:46 | after the whitespace step, every whitespace character is a single `' '` with non-whitespace on both sides; there is none at either end |
| Utils.NormalizeWhitespaceIdempotent | src/rag_project/utils.py:46 | applying the whitespace step twice is the same as once |
| Utils.MatchNonAscii | src/rag_project/utils.py:49 | `[^\x00-\x7F]+` matches iff the text starts above 0x7F, and covers only such characters |
| Utils.AsciiFilter | src/rag_project/utils.py:49 | reference filter: every character of the result is at most 0x7F |
| Utils.StripNonAsciiIsFilter | src/rag_project/utils.py:49 | the non-ASCII step equals the reference filter that keeps exactly the characters up to 0x7F, in order |
| Utils.NonAsciiStepAscii | src/rag_project/utils.py:49 | after the non-ASCII step every character is at most 0x7F, and the step is idempotent |
| Utils.NonAsciiBreaksSpacing | src/rag_project/utils.py:46-49 | on `a é b` the whitespace property holds, and the non-ASCII step turns the text into `a  b`, where it no longer holds |
| Utils.HashtagRecreatedByNonAsciiStep | src/rag_project/utils.py:43-49 | `#—a` is left alone by the hashtag step; the non-ASCII step turns it into `#a`, which has a hashtag |
| Utils.TokenizerInputLowerAscii | src/rag_project/utils.py:49-52 | the text handed to the language model is ASCII-only and has no upper-case letter |
| Utils.KeptLemmas | src/rag_project/utils.py:53 | the filter keeps at most as many lemmas as there are tokens |
| Utils.KeptLemmasAppend | src/rag_project/utils.py:53 | the filter distributes over concatenation of token sequences, so token order is kept |
| Utils.KeptLemmasMembers | src/rag_project/utils.py:53 | a lemma is in the result iff some token that is neither stop word nor punctuation has it |
| Utils.Preprocess | src/rag_project/utils.py:26-27 | a non-string input gives `""` |
| Utils.PreprocessAllFiltered | src/rag_project/utils.py:52-55 | when every token is a stop word or punctuation, the result is `""` |
| Utils.PreprocessWords | src/rag_project/utils.py:52-55 | when some token is kept and no kept lemma contains a space, splitting the result on spaces gives back the kept lemmas in token order |
| Utils.SplitSpace | src/rag_project/utils.py:55 | Python's `str.split(' ')`, which the source does not call, used here as the inverse of the join at line 55 to state its round trips (`SplitJoin`, `JoinSplit`); it always yields at least one piece |
| Utils.SplitJoin | src/rag_project/utils.py:55 | splitting a non-empty single-space join of space-free pieces gives the pieces back |
| Utils.JoinSplit | src/rag_project/utils.py:55 | joining the pieces of `split(' ')` with single spaces gives the text back |
| Chunker.ReadSettings | src/rag_project/chunker.py:16-19 | the settings are read iff the configuration loaded and `chunking` holds all of `chunk_size`, `chunk_overlap` and `encoding`; each setting is the value stored under its key |
| Chunker.ChunkAndPreprocessDocs | src/rag_project/chunker.py:13-82 | the method with the source's loops returns exactly the specification `ChunkAndPreprocess` of its inputs |
| Chunker.CleanRecords | src/rag_project/chunker.py:23-32 | the cleaning loop, followed by the single append after it, returns exactly `CleanedData`: the error of the first non-dictionary record, UnboundLocalError for no records, or the last record's entry |
| Chunker.CleanEntrySucceeds | src/rag_project/chunker.py:26-31 | cleaning a record succeeds iff it is a dictionary; otherwise `item.get` raises AttributeError |
| Chunker.CleanLoopResult | src/rag_project/chunker.py:25-31 | after the cleaning loop: a non-dictionary record gives AttributeError; no records leave `cleaned_entry` unbound; otherwise it holds the entry of the last record |
| Chunker.OnlyLastRecordKept | src/rag_project/chunker.py:25-32 | with non-empty dictionary records, `cleaned_data` is exactly one entry, built from the last record |
| Chunker.CleanEntryFields | src/rag_project/chunker.py:26-31 | `id` is copied (`None` when absent); title, description and user name are normalised, a missing key as `""`, and a non-string value gives `""` |
| Chunker.NumberPiecesSpec | src/rag_project/chunker.py:56-64 | a document's pieces become exactly as many chunks, the k-th carrying piece k and number k+1, in splitter order |
| Chunker.ChunkCopiesMetadata | src/rag_project/chunker.py:57-63 | a chunk of a cleaned entry's document carries exactly that entry's `id`, `title` and `username`, its number and its piece |
| Chunker.SplitAll | src/rag_project/chunker.py:54-55 | either every document's `split_text` succeeded, giving one piece list per document, or some document's split raised |
| Chunker.SplitAllPrefix | src/rag_project/chunker.py:54-55 | one document whose split raises makes the whole splitting fail |
| Chunker.ChunkDocuments | src/rag_project/chunker.py:52-64 | the nested loops return exactly `ChunkDocs`: every document's pieces, numbered from 1, appended in document order, or SplitError as soon as a split raises |
| Chunker.ChunkDocsSucceeds | src/rag_project/chunker.py:54-64 | the chunking loop succeeds iff no `split_text` call raises, and otherwise fails with the splitter's error |
| Chunker.ChunkDocsLength | src/rag_project/chunker.py:54-64 | the number of chunks equals the sum of the split lengths over all documents |
| Chunker.ChunkDocsBlock | src/rag_project/chunker.py:54-64 | the chunks of document j are its numbered pieces, placed right after the chunks of all earlier documents (document order, then split order) |
| Chunker.ToLangchainRoundTrip | src/rag_project/chunker.py:68-76 | the final conversion is one-to-one and order-preserving, keeps content, `id`, `title`, `username` and `chunk_number`, and has exactly those four metadata keys |
| Chunker.SingleDocument | src/rag_project/chunker.py:34-64 | the single cleaned entry is chunked by splitting its content once; a failing split gives the splitter's error |
| Chunker.PipelineErrors | src/rag_project/chunker.py:15-32 | an unreadable configuration, a non-dictionary record or an empty record list raise EmbeddingError with the matching cause, and no list is returned |
| Chunker.PipelineSplitErrors | src/rag_project/chunker.py:46-82 | once the records are cleaned, the call fails exactly when the splitter cannot be built or splitting the kept content raises, each as EmbeddingError |
| Chunker.EntryChunks | src/rag_project/chunker.py:54-76 | piece k of a cleaned entry becomes a document with that piece as content, the entry's metadata and `chunk_number` k+1, in order |
| Chunker.PipelineOutput | src/rag_project/chunker.py:13-78 | on success the result is the converted, numbered pieces of the last record's normalised description |

## Left out

- `src/rag_project/loader.py`: file-system reading and JSON parsing.
- `load_config` (utils.py:9-13): YAML file reading. What it returns is a parameter.
- `model_loading` (utils.py:15-22): package download and spaCy model loading. The model is a parameter `nlp`, assumed not to raise.
- spaCy's tokenizer, lemmatizer and stop-word and punctuation flags: a foreign model, represented only by the token sequence it returns.
- `TokenTextSplitter` and its tiktoken encoding: foreign code. No windowing, overlap or token-count property is stated, because nothing in the shown code guarantees one. The constructor's validation of `chunk_size` and `chunk_overlap` is part of the constructor parameter.
- Logging calls, and the `except Exception as e: raise e` at utils.py:57-58, which changes nothing.
- Exceptions from the cause chain (`from e`) are kept only as a `Cause` tag, not as the original exception object.
- Utils.LowerChar: maps only ASCII letters, because `TokenizerInputLowerAscii` shows that only ASCII text reaches `str.lower()`.
- Utils.MatchHashtag: for characters above 0x7F, `\w` depends on the Unicode database; it is taken as the parameter `alnum`.
- ReSub.Sub: covers only patterns that never match the empty string, which all eight patterns satisfy.
- Utils.MdImageStepDeletes: states only that characters are deleted, not that no image remains, because one pass can create a new image (`MdImageStepRecreates`).
- Utils.ImgTagStepDeletes: states only that characters are deleted, not that no `<img` tag remains, because one pass can create a new one (`ImgTagStepRecreates`).
- Floating-point values from JSON or YAML are kept as opaque text, since no arithmetic is done on them.

# Bilingual New Testament retrieval — a Dafny model

This project models the two sequential cores of a bilingual (Koine Greek /
Reina-Valera 1960 Spanish) New Testament assistant.

1. **The verse store and its retrieval (`NTRAG`).**
   - `add_verse` writes one verse as two documents. Each has a deterministic
     id and fixed metadata.
   - `search_verse` resolves a (book, chapter, verse) location to a complete
     Greek/Spanish pair through a chain of strategies: lookup by id, then a
     metadata filter in one of two syntaxes, then a client-side scan.
   - `search_by_concept` takes the already-ranked neighbour metadata of a
     vector query. It skips malformed entries, keeps the first occurrence of
     each location up to `top_k` keys, and resolves each key.
   - `format_context` renders a pair as a labelled text block.
2. **The corpus assembly script.**
   - `load_greek_nt` is a line-oriented state machine over MorphGNT files.
     It reads `BBCCVV` codes and joins the words of consecutive lines into
     verse texts.
   - `load_spanish_nt` numbers the chapters and verses of the Reina-Valera
     JSON from 1.
   - `merge_data` intersects the two `book → chapter → verse → text` maps and
     emits records sorted by book, chapter and verse.

Modules, one per concern:

| module | file | models |
|---|---|---|
| `Text` | text.dfy | `str.strip`, `str.split()`, `" ".join`, `isdigit`, `int(...)` and `str(...)` |
| `Ordering` | ordering.dfy | `sorted(...)` of a set under a strict total order |
| `Seqs` | seqs.dfy | list filtering |
| `VerseStore` | verse_store.dfy | documents, ids, metadata, and the collection's `add` and `get` |
| `Resolver` | resolver.dfy | `search_verse` as a function of the collection |
| `Ingestion` | ingestion.dfy | `add_verse` over a collection and over a list of records |
| `Concept` | concept.dfy | `search_by_concept` as a function of the ranked neighbours |
| `ContextFormat` | context_format.dfy | `format_context` and a parser that reads its output back |
| `Rag` | ntrag.dfy | the `NTRAG` class: the collection as a mutable field, the lazily loaded embedding model, and the imperative loops |
| `Books` | books.dfy | the 27 book names |
| `GreekCorpus` | greek_corpus.dfy | `load_greek_nt` |
| `SpanishCorpus` | spanish_corpus.dfy | `load_spanish_nt` |
| `CorpusMerge` | corpus_merge.dfy | `merge_data` |

Modelling choices:

- **The collection** is the sequence of its documents in insertion order,
  which is the order in which every `get` returns them. An `add` whose id is
  already stored leaves the collection unchanged (`VerseStore.Insert`).
- **Store behaviour during a lookup** is a `Backend` value:
  - which `where` syntax the store accepts: the operator form, only the plain
    form, or neither (in which case the scan runs);
  - whether a plain `get` raises.
- **Failures of the embedding model** (loading it, or encoding a text) and of
  the vector query are boolean parameters.
- **Vector ranking.** The result of the vector query is taken as given: a
  sequence of optional metadata records in ranking order.
- **Input files.**
  - Greek files are sequences of lines, keyed by file name; a missing file is
    a missing key.
  - The Spanish JSON is a sequence of books. Each book has optional chapters,
    and a verse is an optional string (JSON `null` is `None`).

An exception in the first `get` (app/rag.py:67) is caught by the outer
handler (app/rag.py:149), so `search_verse` returns `None` without trying
the metadata filter. `Resolver.Resolve` returns `None` whenever
`Backend.lookupFails` holds.

## Model

| member | source | states |
|---|---|---|
| VerseStore.VerseId | app/rag.py:254-256 | Definition (no contract): the id `{libro}_{capitulo}_{versiculo}_{griego\|espanol}` that `add_verse` writes and `search_verse` asks for |
| VerseStore.AddVerseDocs | app/rag.py:254-286 | Definition (no contract): the collection after `add_verse`: the Greek document, then the Spanish one, each added unless its id is already stored |
| VerseStore.VerseIdRoundTrip | app/rag.py:62-63 | The id `{libro}_{capitulo}_{versiculo}_{griego\|espanol}` can be read back, splitting from the right, into the location and the language it was built from, whatever underscores the book name contains |
| VerseStore.VerseIdDistinct | app/rag.py:254-256 | Two documents for different locations or different languages never share an id |
| VerseStore.VerseIdInjective | app/rag.py:254-256 | Equal ids mean equal location and language, so the read path's ids name exactly the documents the write path stored |
| Rag.EmbeddingCache.constructor | app/rag.py:15 | The shared embedding model starts unloaded |
| Rag.NTRag.constructor | app/rag.py:17-36 | The store opens on the persisted collection and shares the class-wide model cache |
| Rag.NTRag.GetEmbeddingModel | app/rag.py:38-42 | The model is available iff it was already loaded or loading succeeds; once loaded it stays loaded and is not reloaded |
| Rag.NTRag.AddVerse | app/rag.py:231-286 | Succeeds iff the model is available and both encodings succeed. On success the collection gains the Greek then the Spanish document, with the derived ids and metadata (`libro`, `capitulo`, `versiculo`, `idioma`). When both ids are new, that is exactly two documents appended. On failure nothing is written. A well-formed collection stays well-formed |
| Ingestion.Ingest | scripts/ingest.py:80-92 | Definition (no contract): the collection after `add_verse` of each record in order |
| Ingestion.AddVerseWellFormed | app/rag.py:254-286 | After `add_verse`, ids stay unique and every document's id still matches its metadata |
| Ingestion.AddVerseAgainIsNoOp | app/rag.py:273-286 | Adding a verse whose two ids are already stored changes nothing (the original texts are kept) |
| Ingestion.StoredTextAfterAdd | app/rag.py:254-286 | After adding a fresh verse, the text stored under the id for either language of any location is the new text for that language of that location, and the earlier text otherwise |
| Ingestion.AddVerseThenResolve | app/rag.py:61-86 | A fresh verse that was just added is found by `search_verse` with both texts exactly when both are non-empty (and the lookup does not raise) |
| Ingestion.AddVerseKeepsOthers | app/rag.py:273-286 | Adding a verse does not change what `search_verse` returns for any other location |
| Ingestion.IngestWellFormed | scripts/ingest.py:80-92 | Ingesting any list of records keeps the collection well-formed |
| Ingestion.FreshAfterIngest | scripts/ingest.py:80-92 | A location that no record names has no document after ingestion |
| Ingestion.IngestThenResolve | scripts/ingest.py:80-92 | After ingesting records with distinct locations into an empty collection, every record's location resolves to that record's two texts, or to `None` if one is empty |
| Ingestion.JuanThreeSixteen | app/rag.py:44-152 | Concrete case: after adding Juan 3:16, the lookup returns its pair, and Juan 3:17 is not found |
| Resolver.Resolve | app/rag.py:44-152 | Definition (no contract): `search_verse`: `None` on a failing first `get`, else the id lookup, then the metadata filter or the scan, each yielding a pair only when both texts are non-empty |
| Resolver.ById | app/rag.py:65-86 | Definition (no contract): step 1, the lookup of both ids and the pairing of their texts |
| Resolver.ByFilter | app/rag.py:90-112 | Definition (no contract): step 2, the `where` filter on book, chapter and verse, split by `idioma` |
| Resolver.ByScan | app/rag.py:113-128 | Definition (no contract): step 3, the client-side scan of every stored metadata record, split by `idioma` |
| Resolver.ByIdIsStoredPair | app/rag.py:61-86 | The first step fetches exactly the two ids `add_verse` writes. It answers iff at least two documents come back and both texts are non-empty, and the answer is the stored pair with the requested location echoed |
| Resolver.FilterIsGetByIds | app/rag.py:90-99 | In a well-formed collection, the metadata filter on book, chapter and verse returns exactly the documents the two ids name |
| Resolver.ByFilterIsStoredPair | app/rag.py:130-148 | In the fallback, the texts are assigned by `idioma` with a later document overwriting an earlier one. A pair is returned only from two or more documents and only with both texts non-empty. In a well-formed collection this is the stored pair |
| Resolver.ScanAgreesWithFilter | app/rag.py:113-128 | The last-resort scan collects the ids of exactly the documents whose metadata equals the requested location, gives `None` when there are none, and otherwise returns the same as the filter step |
| Resolver.ResolvedIsComplete | app/rag.py:71-148 | Whatever the backend, a returned pair echoes the requested location and has both texts non-empty |
| Resolver.NeverOneSided | app/rag.py:65-152 | `search_verse` never returns a one-sided pair: each text comes from a stored document for that language of the requested location, and an exception yields `None` |
| Resolver.ResolveWellFormed | app/rag.py:61-152 | In a well-formed collection, `search_verse` returns the stored pair whatever filter syntax the store accepts, and `None` when the lookup raises |
| Rag.NTRag.SearchVerse | app/rag.py:44-152 | The imperative lookup, with its scan loop, equals the resolution chain. In a well-formed collection the result is the stored pair, or `None` |
| Rag.ScanMatchingIds | app/rag.py:114-121 | The scan loop's id list is the ids of the documents whose book, chapter and verse metadata match, in stored order |
| Rag.SplitByLanguage | app/rag.py:132-139 | The loop over the fallback results leaves each text as that of the last document of that language, or "" |
| Rag.UniqueLocations | app/rag.py:186-203 | The dedup loop with its `seen` set yields the first-occurrence keys of well-formed metadata, cut at `top_k` (at least one key even when `top_k <= 0`) |
| Rag.NTRag.SearchEach | app/rag.py:204-209 | The resolve loop keeps, in order, the keys that `search_verse` resolves |
| Rag.NTRag.SearchByConcept | app/rag.py:154-209 | A blank query returns `[]` without touching the model. Otherwise the model is loaded if needed. Any failure of the model, the encoding or the vector query returns `[]`, as does an over-fetch size `min(max(2·top_k, 20), count)` below 1. The result is the concept search over the ranked neighbours |
| Concept.ConceptResult | app/rag.py:154-209 | Definition (no contract): `search_by_concept`: no result for a blank query or a failure, else the first distinct locations of the fetched neighbours, each resolved by `search_verse` |
| Concept.FirstKeys | app/rag.py:186-201 | The collected keys contain no duplicate location |
| Concept.FirstKeysMembers | app/rag.py:189-201 | A location is collected iff some entry has non-empty metadata with book, chapter and verse all present and naming it |
| Concept.FirstKeysPrefix | app/rag.py:202-203 | The keys collected from a prefix of the neighbours are a prefix of those collected from all of them, so stopping at `top_k` keeps the first keys |
| Concept.FirstKeysOrder | app/rag.py:189-201 | Keys appear in order of their first occurrence among the neighbours |
| Concept.ResolveAll | app/rag.py:204-209 | Each output pair comes from one of the keys, in order, and is `search_verse`'s non-`None` result for it; there are never more pairs than keys |
| Concept.ResolveAllLocations | app/rag.py:204-209 | The locations of the output are exactly the keys that resolve, in key order |
| Concept.ConceptBounded | app/rag.py:186-209 | At most `top_k` results when `top_k >= 1`, and at most one otherwise |
| Concept.ConceptComplete | app/rag.py:204-209 | Every result has both texts, is `search_verse`'s answer for its location, and names a location that occurs among the neighbours |
| Concept.ConceptNoDuplicates | app/rag.py:187-209 | No two results share a location |
| Concept.ConceptOrdered | app/rag.py:186-209 | Results keep the order of first occurrence among the neighbours |
| ContextFormat.FormatContext | app/rag.py:221-229 | Definition (no contract): the labelled block of book, chapter, verse, Greek text and Spanish text |
| ContextFormat.FormatContextRoundTrip | app/rag.py:221-229 | The block holds, in order, the `LIBRO`, `CAPÍTULO` and `VERSÍCULO` lines, a blank line, the Greek heading and text, a blank line, the Spanish heading and text. When the book name and the Greek text have no line break, the block parses back to the exact pair |
| ContextFormat.FormatContextAmbiguous | app/rag.py:221-229 | Without that condition the layout is ambiguous: two different pairs give the same block |
| Text.StripEmptyIffAllSpace | app/rag.py:166 | `not s.strip()` holds exactly when the string is empty or all whitespace |
| Text.TokensOfJoin | scripts/process_data.py:141-158 | Splitting space-joined words on whitespace gives the words back |
| Ordering.StrLtIsStrictTotalOrder | scripts/process_data.py:183 | Python's string comparison is a strict total order |
| Ordering.Sorted | scripts/process_data.py:183-201 | `sorted(set)` lists every member exactly once, strictly increasing |
| GreekCorpus.StoreGroup | scripts/process_data.py:147-152 | Definition (no contract): the flush of one verse group: its words joined and stripped, stored unless chapter or verse is 0 |
| GreekCorpus.StepEntry | scripts/process_data.py:146-157 | Definition (no contract): one accepted line: a new location flushes the pending group and starts another, the same location appends the word |
| GreekCorpus.LoadBook | scripts/process_data.py:118-164 | Definition (no contract): one MorphGNT file read line by line with the final flush |
| GreekCorpus.ParseLine | scripts/process_data.py:124-145 | An accepted line yields a non-empty word without whitespace, and a chapter and a verse in 0..99 |
| GreekCorpus.ParseMorphLine | scripts/process_data.py:129-145 | A line with a six-digit `BBCCVV` code and at least three more fields yields chapter `CC`, verse `VV` and the third field as the word (the book digits play no part) |
| GreekCorpus.CodeFields | scripts/process_data.py:137-139 | The code's characters 0–1, 2–3 and 4–5 read back as book, chapter and verse |
| GreekCorpus.StoreVerseFrame | scripts/process_data.py:149-152 | Storing a verse creates its chapter if missing, sets that one text, and leaves every other chapter and verse unchanged |
| GreekCorpus.FlushVerse | scripts/process_data.py:148-152 | Flushing stores the joined, stripped words only when chapter and verse are both positive |
| GreekCorpus.LoadGreekBook | scripts/process_data.py:118-164 | The imperative line loop with its final flush equals the state-machine specification |
| GreekCorpus.EntriesAreWords | scripts/process_data.py:141-145 | Every accepted line contributes a non-empty word without whitespace |
| GreekCorpus.GroupsMaximal | scripts/process_data.py:147-158 | Runs are non-empty and maximal: adjacent runs differ in (chapter, verse), and the last run holds the last line's key |
| GreekCorpus.GroupsWords | scripts/process_data.py:147-158 | Each run's words are words |
| GreekCorpus.GroupsFlatten | scripts/process_data.py:147-158 | Concatenating the runs gives back the accepted lines, in input order |
| GreekCorpus.StepIsGroups | scripts/process_data.py:147-158 | One more line either extends the current run or flushes it and starts a new one |
| GreekCorpus.RunIsGroups | scripts/process_data.py:124-158 | After any prefix of the file, the state machine holds the flushed book and the current run of the grouping |
| GreekCorpus.LoadBookIsGroups | scripts/process_data.py:118-164 | The loaded book is the runs stored in order, the last one included |
| GreekCorpus.StoreAllKeys | scripts/process_data.py:148-164 | Chapter 0 and verse 0 are never stored, and no stored chapter is empty |
| GreekCorpus.StoreAllLast | scripts/process_data.py:148-164 | A (chapter, verse) that reappears later overwrites the earlier text: the last run with that key wins |
| GreekCorpus.StoreAllAbsent | scripts/process_data.py:148-164 | A (chapter, verse) that no run has is not stored |
| GreekCorpus.JoinedText | scripts/process_data.py:151 | The final `.strip()` of the joined words changes nothing |
| GreekCorpus.LoadedVerse | scripts/process_data.py:147-164 | The stored text of a verse is its last run's words joined with single spaces, in input order |
| GreekCorpus.LoadGreekBooks | scripts/process_data.py:111-169 | The loop over any file table equals the book-by-book specification for that table |
| GreekCorpus.LoadGreekNT | scripts/process_data.py:111-169 | Loading over the fixed 27-book file table equals the specification of the Greek New Testament |
| GreekCorpus.GreekNTAbsent | scripts/process_data.py:111-118 | A book name that the table does not list is never loaded |
| GreekCorpus.GreekNTLookup | scripts/process_data.py:111-118 | A listed book is loaded iff its file exists, and then holds that file's parse |
| GreekCorpus.GreekFilesDistinct | scripts/process_data.py:47-75 | The file table pairs the 27 MorphGNT files, in order, with 27 distinct book names |
| GreekCorpus.GreekNTBooks | scripts/process_data.py:47-118 | Book `k` is loaded iff its file exists, and is then that file's parse. No other name is ever loaded |
| Books.BookNamesDistinct | scripts/process_data.py:16-44 | There are 27 book names and they are pairwise distinct |
| SpanishCorpus.CleanVerse | scripts/process_data.py:96 | Definition (no contract): a verse value stripped of outer whitespace, or the empty string when it is null or empty |
| SpanishCorpus.SpanishBook | scripts/process_data.py:90-97 | Definition (no contract): one book's chapters and verses numbered from 1 |
| SpanishCorpus.CleanVerseIsStripped | scripts/process_data.py:97 | A stored verse has no surrounding whitespace. It is empty exactly when the JSON text is null or all whitespace |
| SpanishCorpus.SpanishBookShape | scripts/process_data.py:94-98 | Chapter `c` and verse `v` are stored iff the JSON has a `c`-th chapter with a `v`-th verse, numbering from 1, and the text is that entry cleaned |
| SpanishCorpus.LoadSpanishBook | scripts/process_data.py:94-98 | The nested loops equal the 1-based numbering specification |
| SpanishCorpus.LoadSpanishBooks | scripts/process_data.py:87-98 | The loop over any index table, skipping indices outside the Bible, equals the book-by-book specification for that table |
| SpanishCorpus.LoadSpanishNT | scripts/process_data.py:87-98 | Loading over the fixed table of indices 39-65 equals the Spanish New Testament specification |
| SpanishCorpus.SpanishNTAbsent | scripts/process_data.py:87-92 | A name the table does not list is never loaded |
| SpanishCorpus.SpanishNTLookup | scripts/process_data.py:87-92 | A listed book is loaded iff its JSON index is below the input length, and then holds that entry's chapters |
| SpanishCorpus.SpanishNTBooks | scripts/process_data.py:16-98 | Book `k` is loaded iff JSON index `39 + k` exists, from that entry. No other name is ever loaded |
| CorpusMerge.Merge | scripts/process_data.py:172-213 | Definition (no contract): the records of the locations in both corpora, by sorted book, chapter and verse |
| CorpusMerge.SortedNames | scripts/process_data.py:181-183 | The union of the book names, sorted in string order |
| CorpusMerge.SortedNumbers | scripts/process_data.py:190-192 | The union of the chapter (or verse) numbers, sorted numerically |
| CorpusMerge.MergeChapter | scripts/process_data.py:199-211 | The verse loop appends the specification's records for that chapter |
| CorpusMerge.MergeBook | scripts/process_data.py:190-211 | The chapter loop appends the specification's records for that book |
| CorpusMerge.MergeData | scripts/process_data.py:172-213 | The three nested loops equal the merge specification |
| CorpusMerge.VersesMembers | scripts/process_data.py:199-211 | A record is emitted for a chapter iff its verse is in both chapters, and it carries both texts unchanged |
| CorpusMerge.ChaptersMembers | scripts/process_data.py:190-211 | The same at the chapter level |
| CorpusMerge.BooksMembers | scripts/process_data.py:181-211 | The same at the book level |
| CorpusMerge.MergeMembers | scripts/process_data.py:181-211 | A record is emitted iff its location is present in both sources at book, chapter and verse level and it carries the Greek and Spanish texts unchanged. Empty texts are not filtered out |
| CorpusMerge.VersesSorted | scripts/process_data.py:201-211 | Within a chapter, records are in increasing verse order |
| CorpusMerge.ChaptersSorted | scripts/process_data.py:192-211 | Within a book, records are in increasing (chapter, verse) order |
| CorpusMerge.BooksSorted | scripts/process_data.py:183-211 | Records are in increasing (book, chapter, verse) order, books in string order |
| CorpusMerge.MergeSorted | scripts/process_data.py:183-201 | The output is strictly sorted by book name, then chapter, then verse |
| CorpusMerge.MergeDistinct | scripts/process_data.py:181-203 | No location is emitted twice |
| CorpusMerge.MergeThenIngestThenResolve | scripts/process_data.py:205-211 | Once the merged records are ingested into an empty collection, `search_verse` of any location in both sources returns its two texts, unless one is empty |

## Left out

- Embeddings, the vector distance ranking and `SentenceTransformer`. These are floating-point work behind a foreign library. The ranked neighbours are an input sequence, and encoding and loading failures are boolean inputs.
- Documents stored without metadata. Chroma can hold a document whose metadata is `None`; `metadata.get` then raises in the scan and in the language split (app/rag.py:117, 135) and the outer handler returns `None`. `VerseStore.Metadata` has no such value (a record with every field `None` is simply skipped). Only `add_verse` writes the collection, and it always writes metadata, so this case arises only from writers outside the model.
- ChromaDB internals: the persistent client, the collection's creation, and the query engine. The collection is a sequence of documents; the accepted `where` syntax and a raising `get` are inputs; `count()` is the collection's length.
- Rag.NTRag.AddVerse: if the first `add` succeeds and the second raises, one document stays written. The model treats the encodings as the only failure points and the two adds as infallible.
- The class-level model cache under concurrent first use. The cache is one shared object, loaded at most once.
- Rag.NTRag.SearchByConcept: the vector query is taken to return the first `n` entries of the given neighbour ranking. Which documents are nearest to the query is not modelled.
- GreekCorpus.ParseLine: `isdigit` is modelled as ASCII digits only, and `int()` on those digits. Python's `isdigit` also accepts other Unicode decimal digits, which `int()` reads, and non-decimal digits such as '²', on which `int(code[2:4])` raises `ValueError` and `load_greek_nt` stops with that exception (scripts/process_data.py:133-138); the model skips every such line instead.
- SpanishCorpus.CleanVerse: JSON verse values are strings or null. Other JSON types, and a `chapters` value that is not a list, are outside the model. A missing `chapters` key is an empty book.
- SpanishCorpus.LoadSpanishBooks: an index below zero is skipped, where Python would count it from the end of the list. The only table used has indices 39 to 65.
- File and OS operations (`open`, `json.load`, `os.path.exists`, `main`) and every `print`. Files are inputs: lines per file name, and the decoded JSON.
- app/main.py (the UI), app/llm_client.py (an HTTP client), app.py (an entry point) and the loading half of scripts/ingest.py. Ingestion's per-record effect is modelled by `Ingestion.Ingest`, which is `add_verse` over a list of records. The try/except around each record (scripts/ingest.py:81-101) skips a record whose fields fail to convert or whose `add_verse` raises; `Ingest` applies every record, so neither kind of skipped record is modelled.

# Delta-sync ingestion pipeline: a Dafny model

This project models the ingestion core of a service that mirrors legal PDFs
from Google Drive into an OpenAI vector store. Each sync cycle compares the
Drive listing with a local TinyDB checksum table and queues only new files
and files whose MD5 checksum changed. For each queued file it downloads the
PDF, extracts each page's text, splits that text into semantic chunks and
appends a fixed metadata block (title, author, year, printed page number)
to each chunk. It then uploads the joined document. The file's checksum is
recorded only once the upload has reported success.

The Dafny modules follow the source files:

| module | source file | form |
|---|---|---|
| `SemanticChunker` | `logic/semantic_chunker.py` | class `SemanticChunker`; `ChunkText` keeps the two nested packing loops and is proved equal to the fold `Chunks` |
| `RegexSplit` | `logic/semantic_chunker.py` | `re.split` for the patterns `\n\s*\n` and `(?<=[.!?])\s+(?=[A-Z])`, as hand-written recognisers |
| `MetadataInjector` | `utils/metadata_injector.py` | pure functions: validation, the defaults and the block layout |
| `FileTable` | both `db_manager.py` files | TinyDB's `uploaded_files` table: a list of records with `get` and `upsert` |
| `DatabaseDBManager`, `ConfigDBManager` | `database/db_manager.py`, `config/db_manager.py` | class `DBManager` holding the table; its methods change it in place |
| `SyncEngine` | `logic/sync_engine.py` | the delta comparator, the regex file-name parser, the per-file pipeline and the batch, in class `SyncEngine` |
| `Pagination` | `utils/pdf_processor.py`, `services/extraction_service.py` | the page-number pattern `^(?:Page\s*)?-?\s*(\d+)\s*-?$` and the header/footer search |
| `PdfProcessor` | `utils/pdf_processor.py` | the `" - "` file-name parser, the 3-line page-number guess and the page-assembly loop |
| `ExtractionService` | `services/extraction_service.py` | the block filter and join, the 5-line guess and the per-page loop |
| `FileUtils` | `utils/file_utils.py` | `sanitize_filename` |
| `Text`, `Seqs`, `Wrappers` | — | Python's `strip`, `split`, `join`, `replace` and `isspace`, sequence facts, `Option` and `Attempt` |

Calls into Drive, OpenAI, PyMuPDF and the file system are parameters.
Each call is given by its outcome: a value, or `Raised` for an exception.
Batches run sequentially, one file after another.

## Model

| member | source | states |
|---|---|---|
| `SemanticChunker.SemanticChunker.constructor` | logic/semantic_chunker.py:12-20 | the chunker keeps the limit it is given, 3000 by default |
| `SemanticChunker.SemanticChunker.ChunkText` | logic/semantic_chunker.py:22-71 | the loops compute `Chunks(text, max)`; the result is empty iff the text is all whitespace; every chunk is non-empty and stripped; every chunk has length at most `max` unless it is one sentence of an oversize paragraph; the non-whitespace characters of the chunks, concatenated, are those of the text, in order |
| `SemanticChunker.ChunksProperties` | logic/semantic_chunker.py:32-68 | the same four properties, proved for the specification function `Chunks` |
| `SemanticChunker.StepPreservesInv` | logic/semantic_chunker.py:50-64 | one fit-or-seal step of either loop keeps the invariant: sealed chunks are non-empty, stripped and within size (or oversize sentences), and no non-whitespace character is lost or added |
| `SemanticChunker.WholeTextFits` | logic/semantic_chunker.py:39-68 | when the cleaned paragraphs, each followed by `"\n\n"`, fit within the limit, the result is exactly one chunk: the paragraphs joined by `"\n\n"` |
| `SemanticChunker.OneOversizeSentence` | logic/semantic_chunker.py:47-55 | a text longer than the limit, with no blank line and no sentence boundary, comes back whole as one oversize chunk |
| `SemanticChunker.BlankTextNoParagraphs` | logic/semantic_chunker.py:32-43 | a blank text yields no non-blank paragraph |
| `SemanticChunker.SplitBySentencesShape` | logic/semantic_chunker.py:80-83 | every sentence returned is non-empty and stripped |
| `SemanticChunker.SplitBySentencesNonSpace` | logic/semantic_chunker.py:80-83 | the sentences hold every non-whitespace character of the paragraph, in order |
| `RegexSplit.SentenceSplitBoundaries` | logic/semantic_chunker.py:80-82 | the sentence split cuts only after `.`, `!` or `?` and before an ASCII upper-case letter |
| `RegexSplit.SplitNonSpace` | logic/semantic_chunker.py:39 | splitting at either pattern removes only whitespace: the parts keep every other character, in order |
| `RegexSplit.MatchAt` | logic/semantic_chunker.py:39 | a separator match is non-empty and all whitespace |
| `MetadataInjector.StrField` | utils/metadata_injector.py:11-13 | a missing title, author or year is `"Unknown"`; a given string is kept as it is, empty included; `None` is a validation error |
| `MetadataInjector.ValidatePageNumber` | utils/metadata_injector.py:19-24 | the page number is always non-empty and stripped |
| `MetadataInjector.PageNumberNormalised` | utils/metadata_injector.py:14-24 | a non-blank page number becomes its stripped text; a missing, `None`, empty or blank one becomes `"Unknown"` |
| `MetadataInjector.Validate` | utils/metadata_injector.py:50-51 | validation succeeds iff none of title, author and year is `None`; then a given title, author or year is kept exactly as given (empty included), and the page number is the validator's result |
| `MetadataInjector.ValidateFailsIff` | utils/metadata_injector.py:50-54 | validation fails exactly when one of the three plain fields is given as `None` |
| `MetadataInjector.EffectiveMetadata` | utils/metadata_injector.py:50-54 | a failed validation falls back to all four fields `"Unknown"`, without raising |
| `MetadataInjector.MissingFieldsDefault` | utils/metadata_injector.py:11-17 | each missing key gives `"Unknown"`, and a failed validation discards the page number too |
| `MetadataInjector.InjectMetadata` | utils/metadata_injector.py:45-74 | a blank chunk is returned unchanged; otherwise the result is the stripped chunk followed by the block of the effective metadata, whatever the field values hold |
| `MetadataInjector.ReadBlockRoundTrip` | utils/metadata_injector.py:62-71 | the block's lines, in their fixed order under the labels `Title:`, `Author:`, `Year:` and `Internal Pagination:` between the two rules, read back as the same text and metadata |
| `MetadataInjector.InjectRoundTrip` | utils/metadata_injector.py:57-74 | an enriched chunk is the stripped chunk followed by the block of the effective metadata, and parsing it recovers both |
| `FileTable.Get` | database/db_manager.py:46-50 | `get` finds nothing iff no record has the id, and otherwise returns the first record with it |
| `FileTable.Upsert` | database/db_manager.py:66-75 | the table grows by one record exactly when the id was absent |
| `FileTable.UpsertReadsBack` | database/db_manager.py:44-75 | read-your-write: after the upsert, the id reads back as the record written |
| `FileTable.UpsertOthers` | database/db_manager.py:74 | records with any other id read back as before |
| `FileTable.UpsertKeepsUnique` | database/db_manager.py:66-75 | the upsert keeps at most one record per `file_id` |
| `FileTable.UpsertIdempotent` | database/db_manager.py:66-75 | repeating an upsert with the same arguments leaves the table unchanged |
| `DatabaseDBManager.DBManager.constructor` | database/db_manager.py:14-21 | the store opens with the records already stored, and with at most one per id when they were unique |
| `DatabaseDBManager.DBManager.CheckFileStatus` | database/db_manager.py:33-50 | returns `(True, stored checksum)` iff a record for the id exists, else `(False, None)` |
| `DatabaseDBManager.DBManager.MarkFileAsProcessed` | database/db_manager.py:52-79 | on success the id reads back as `{file_id, file_name, checksum, 'synced'}`, other ids are unchanged and uniqueness is kept; a failed write is reported as `Fail` and leaves the table unchanged |
| `ConfigDBManager.DBManager.constructor` | config/db_manager.py:12-18 | the store opens with the records already stored, and with at most one per id when they were unique |
| `ConfigDBManager.DBManager.CheckFileStatus` | config/db_manager.py:20-34 | returns `(True, checksum)` iff a record for the id exists, else `(False, None)` |
| `ConfigDBManager.DBManager.MarkFileAsProcessed` | config/db_manager.py:36-59 | upserts the synced record; other ids are untouched; at most one record per id; a failed write is reported as `Fail` with the table unchanged |
| `SyncEngine.FilesToProcess` | logic/sync_engine.py:111-131 | a listed file is queued iff it has no record or its stored checksum differs from `md5Checksum` |
| `SyncEngine.FilesToProcessInOrder` | logic/sync_engine.py:111-131 | the queue is a subsequence of the listing, in listing order, and takes every file that needs syncing |
| `SyncEngine.FilesToProcessAppend` | logic/sync_engine.py:113-129 | each file is judged on its own: the queue of a concatenated listing is the concatenation of the queues |
| `SyncEngine.ChangedChecksumRequeued` | logic/sync_engine.py:119-126 | against an up-to-date store, changing one file's checksum queues exactly that file |
| `SyncEngine.RecordAllHas` | logic/sync_engine.py:245-250 | after recording distinct files, each id reads back as its synced record |
| `SyncEngine.RecordAllOthers` | logic/sync_engine.py:245-250 | recording leaves every other id as it was |
| `SyncEngine.ResyncFindsNothing` | logic/sync_engine.py:113-129 | once every queued file (ids distinct) is recorded with its checksum, the same listing queues nothing |
| `SyncEngine.SyncEngine.constructor` | logic/sync_engine.py:34-51 | the engine holds a fresh store with the stored records and a chunker with the default limit |
| `SyncEngine.SyncEngine.GetFilesToProcess` | logic/sync_engine.py:100-131 | the loop over status checks builds exactly `FilesToProcess` of the current table |
| `SyncEngine.AuthorStop` | logic/sync_engine.py:145 | the lazy author group stops at the first position where whitespace then a hyphen follows, and nowhere earlier |
| `SyncEngine.MatchShape` | logic/sync_engine.py:145 | in any match the year group is four digits, and a non-empty author group is hyphen-free and not blank |
| `SyncEngine.ParsedShape` | logic/sync_engine.py:139-171 | the year is `"Unknown"` or four digits; the author is `"Unknown"` or non-empty text without a hyphen |
| `SyncEngine.YearIff` | logic/sync_engine.py:139-158 | the year is known iff the cleaned name starts with four digits, optional whitespace and `-`, and it is then those four digits |
| `SyncEngine.FieldsAuthor` | logic/sync_engine.py:160-168 | the author is the stripped author group when it is non-empty and a title follows, and `"Unknown"` otherwise |
| `SyncEngine.ParseYearAuthorTitle` | logic/sync_engine.py:139-168 | `Y - A - T.pdf` parses as year `Y`, author `A`, title `T` |
| `SyncEngine.ParseAuthorTitle` | logic/sync_engine.py:145-168 | `A - T.pdf` with no year parses as author `A`, title `T`, year `"Unknown"` |
| `SyncEngine.ParseYearTitle` | logic/sync_engine.py:145-168 | `Y - T.pdf` parses as year `Y`, title `T`, author `"Unknown"` |
| `SyncEngine.ParseAuthorOnly` | logic/sync_engine.py:165-168 | an author with no title after the hyphen becomes the title, and the author is `"Unknown"` |
| `SyncEngine.ParseNoHyphen` | logic/sync_engine.py:148-150 | a name with no hyphen is all title, with year and author `"Unknown"` |
| `SyncEngine.DocumentBlocksCount` | logic/sync_engine.py:213-227 | there is one enriched block per chunk, so `total_chunks` counts the blocks |
| `SyncEngine.PageBlocksReadBack` | logic/sync_engine.py:216-227 | the `k`-th block of a page reads back as the page's `k`-th chunk with the file's title, author and year and the page's printed number |
| `SyncEngine.DocumentBlocksReadBack` | logic/sync_engine.py:213-229 | every block of the uploaded document reads back as a chunk of some page, with the file's fields and that page's number |
| `SyncEngine.ExtractedGuesses` | services/extraction_service.py:62-69 | every extracted page's printed number is `"Unknown"` or a non-empty digit string |
| `SyncEngine.SyncEngine.EnrichPage` | logic/sync_engine.py:217-227 | one page's loop yields the enriched chunks in chunk order, and their count |
| `SyncEngine.SyncEngine.EnrichPages` | logic/sync_engine.py:213-227 | the page loop builds `final_text_blocks` page by page, chunks in order, and `total_chunks` |
| `SyncEngine.SyncEngine.BuildDocument` | logic/sync_engine.py:207-229 | the document text is the `"\n\n"`-join of the enriched chunks, with the fields parsed from the file name |
| `SyncEngine.SyncEngine.ProcessSingleFile` | logic/sync_engine.py:180-267 | returns `True` iff every step succeeds and the upload status is truthy, and only then upserts the file's record; once download, extraction and the write succeed, the text written and uploaded is the `"\n\n"`-join of every page's enriched chunks with the filename-derived fields; a missing path, any exception or a falsy status returns `False` and leaves the store unchanged |
| `SyncEngine.SucceededMembers` | logic/sync_engine.py:245-256 | exactly the batch files whose steps all succeed are recorded |
| `SyncEngine.AllSucceeded` | logic/sync_engine.py:285-291 | when every file succeeds, every file is recorded |
| `SyncEngine.CountTrue` | logic/sync_engine.py:293 | the success count never exceeds the number of results |
| `SyncEngine.SyncEngine.ProcessFileBatch` | logic/sync_engine.py:269-296 | one result per file, each saying whether that file succeeded; `success_count` is the number of `True` results; `success_count + fail_count == len(files)`; the store ends with exactly the successful files recorded |
| `SyncEngine.SyncEngine.Start` | logic/sync_engine.py:61-98 | a failed vector-store setup or listing aborts with the store unchanged; otherwise the queue is the comparator's result and the succeeded files are recorded; when all queued files succeed and ids are distinct, the next comparison queues nothing |
| `Pagination.MatchPageLine` | utils/pdf_processor.py:111-115 | a match is a non-empty digit string |
| `Pagination.MatchIff` | utils/pdf_processor.py:111-115 | the recogniser matches a line with group `d` iff the line is optional case-insensitive `Page` and whitespace, optional `-`, whitespace, the digits `d`, whitespace and an optional `-` |
| `Pagination.MatchExamples` | utils/pdf_processor.py:112 | `12`, `- 12 -` and `Page 12` all give `12` |
| `Pagination.GuessReadsOnlyWindow` | utils/pdf_processor.py:108 | lines outside the first and last window never affect the guess |
| `Pagination.FirstSome` | utils/pdf_processor.py:110-117 | the search returns the first match among the candidates, or nothing when none matches |
| `Pagination.GuessFound` | utils/pdf_processor.py:108-117 | the guess is a number iff some stripped candidate line matches |
| `Pagination.GuessIsFirst` | utils/pdf_processor.py:108-117 | a number guess is the digits of the first matching candidate, first lines before last lines |
| `PdfProcessor.GuessInternalPageNumber` | utils/pdf_processor.py:98-117 | with a 3-line window, the result is `"Unknown"` or a non-empty digit string |
| `PdfProcessor.ParseFilenameMetadata` | utils/pdf_processor.py:119-139 | year, author and title are all stripped |
| `PdfProcessor.ParseThreeParts` | utils/pdf_processor.py:124-134 | `Y - A - T.pdf` reads back as year `Y`, author `A`, title `T` (the title may itself contain `" - "`) |
| `PdfProcessor.ParseTwoParts` | utils/pdf_processor.py:124-137 | `Y - T.pdf` reads back as year `Y`, title `T`, author `"Unknown"` |
| `PdfProcessor.ParseOnePart` | utils/pdf_processor.py:124-129 | a name without `" - "` is all title, with year and author `"Unknown"` |
| `PdfProcessor.EnrichedAppendPage` | utils/pdf_processor.py:60-82 | a further page adds its stripped, enriched text and `"\n\n"` at the end, or nothing when it is blank |
| `PdfProcessor.EntryMetadata` | utils/pdf_processor.py:67-77 | a page's block carries the file's title, author and year and the page's own guess |
| `PdfProcessor.EntryReadsBack` | utils/pdf_processor.py:67-82 | each page entry ends in `"\n\n"` and reads back as the page text with its metadata |
| `PdfProcessor.ExtractAndEnrich` | utils/pdf_processor.py:46-96 | returns `<pdf>_processed.txt` iff reading and writing succeed, and writes the enriched text of the non-blank pages in page order; otherwise `None` |
| `PdfProcessor.ProcessPdfForVectorStore` | utils/pdf_processor.py:25-44 | a missing file gives `None` before anything is read |
| `ExtractionService.TextBlocks` | services/extraction_service.py:54 | every kept block is a text block (type 0) whose stripped text is longer than 10 characters, and no more blocks are kept than listed |
| `ExtractionService.TextBlocksMembers` | services/extraction_service.py:54 | a block is kept exactly when it is listed and passes that filter |
| `ExtractionService.TextBlocksAppend` | services/extraction_service.py:54 | the filter judges each block on its own |
| `ExtractionService.PageTextEmpty` | services/extraction_service.py:54-60 | a page's text is empty iff no block is kept |
| `ExtractionService.PageTextSplits` | services/extraction_service.py:60 | the page text is the `"\n\n"`-join of the kept blocks' stripped texts, which splitting at `"\n\n"` gives back |
| `ExtractionService.GuessInternalPagination` | services/extraction_service.py:78-94 | with a 5-line window, the result is `"Unknown"` or a non-empty digit string |
| `ExtractionService.ExtractedPages` | services/extraction_service.py:46-69 | one entry per page |
| `ExtractionService.ProcessPdfBlocks` | services/extraction_service.py:38-76 | one entry per page, its `page_index` its position, its text the joined kept blocks and its number the guess on that text; a PyMuPDF exception propagates |
| `ExtractionService.ExtractDocument` | services/extraction_service.py:19-36 | a missing path raises before the document is read |
| `FileUtils.KeepAllowed` | utils/file_utils.py:72 | every kept character is alphanumeric or one of `' '`, `'.'`, `'_'`, `'-'` |
| `FileUtils.KeepAllowedCounts` | utils/file_utils.py:72 | the filter keeps every occurrence of an allowed character and drops every disallowed one |
| `FileUtils.SanitizedShape` | utils/file_utils.py:72-73 | every character of the output is allowed, and the output has no leading or trailing space |
| `FileUtils.SanitizedSubsequence` | utils/file_utils.py:72-73 | the output is a subsequence of the input, so order is kept |
| `FileUtils.SanitizeKeepsSafeName` | utils/file_utils.py:72-73 | a name of allowed characters with no surrounding spaces is returned unchanged |
| `FileUtils.SanitizeIdempotent` | utils/file_utils.py:72-73 | sanitising twice is sanitising once |

## Left out

- Drive, OpenAI and PyMuPDF are not modelled. `services/drive_client.py` and `services/openai_client.py` are not part of this model. Their results are inputs (`FileEffects`, `Attempt`, the per-page blocks). This includes the retry and backoff they perform.
- Concurrency is not modelled. This covers the `asyncio.Semaphore(10)` and `gather` of the batch, the store's lazily created `asyncio.Lock`, and `asyncio.to_thread`. Files are processed sequentially, so the bound of ten in-flight files is not stated.
- The block sort in extraction is not modelled, because it sorts on rounded float coordinates. A page's blocks are taken as already in reading order. The filter judges each block on its own, so it commutes with the stable sort.
- Logging is left out, and so are the temp-directory wipe and the writing of the processed text file. The file system is not modelled: the text written is `ProcessSingleFile`'s `uploaded` result, and the write itself appears only as its success or failure. The commented-out cleanup is not modelled.
- `calculate_file_md5` and `get_file_size_mb` are left out: they hash with `hashlib`, read files and do float arithmetic. Checksums are opaque strings.
- `str.isalnum` and `\d` are ASCII only here; Unicode letters and digits are not modelled. `str.isspace` and `\s` use Python's full whitespace set.
- In the `logic/sync_engine.py` file-name pattern, `.` is read as any character. File names containing line breaks are not modelled.
- A metadata value is a string or `None`. Pydantic's coercion of other types (integers, for one) is not modelled.
- TinyDB's persistence to `state.json` is not modelled. A write failure is an input; the model assumes a failed write leaves the table unchanged.
- `SemanticChunker.WholeTextFits` is stated for every text, not for the literal example `"Para one.\n\nPara two."` with limit 3000. That instance follows from it once the text's paragraphs are computed, but that computation is not carried out in the proof.

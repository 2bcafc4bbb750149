# Document ingestion and chunking, modelled in Dafny

This project models the document-to-chunks pipeline of the backend: the live
code of `backend/app/services/processDocuments.py`. The pipeline works in
four steps:

- **Extraction** turns a file into a list of pages `{"page": n, "text": t}`.
  - For a PDF, each page keeps only PyMuPDF's text-type blocks (type flag 0), joined by a blank line. Pages are numbered 1, 2, ... in document order.
  - A plain-text file and an image each give one page, numbered 1.
- **Assembly** (`chunk_with_metadata`) cuts every page into paragraphs: the `"\n\n"`-separated pieces, stripped, with the blank ones dropped. It hands each paragraph to the text splitter (`smart_chunk`). It then emits one chunk per splitter piece, in page, paragraph and piece order. Each chunk has a fresh identifier and the metadata `doc_id`, `page`, `paragraph`, `chunk_index` and `source = f"{doc_id}_page_{page}"`.
- **Dispatch** (`process_file_from_url`) picks the reader by an exact, case-sensitive comparison of the declared extension. Anything else raises `ValueError("Unsupported file type: ...")`.
- **Capping**: a truthy `max_chunks` below the chunk count cuts the list to `chunks[:max_chunks]`.

The files:

- `wrappers.dfy`: `Option` and `Result`, for Python's `None` and raised exceptions.
- `py_text.dfy`: the Python string built-ins the pipeline relies on:
  - `str.strip`, over the `str.isspace` character set;
  - `str.split(sep)`, cutting at leftmost, non-overlapping occurrences;
  - `sep.join`;
  - `str(int)`.

  It also proves their round trips: join after split, split after join, and reading back the digits.
- `extract.dfy`: the three page extractors. PyMuPDF's output is an input: per page, a list of `Block(text, blockType)`, which are slots 4 and 6 of each block tuple.
- `chunking.dfy`: the chunk records, the nested assembly loop as methods, and the proofs about it. These cover order, position, contiguity of indices, count, provenance and blank pages.
- `driver.dfy`: dispatch, capping, and `process_file_from_url` as a method proved equal to a specification function, plus what a caller can rely on.

Modelling choices:

- **The splitter** is a function parameter `split: (SplitterSettings, string) -> seq<string>`. `smart_chunk` always calls it with size 500, overlap 50 and separators `["\n\n", "\n", ".", " "]`. Nothing is assumed about what it returns.
- **Identifiers**: the `k`-th call of `uuid.uuid4()` is `uuid(k)`, for an arbitrary `uuid: nat -> string`.
- **The download and the reading libraries** are inputs: what each returns, or `None` where it raises. A failed download is reported before the extension is looked at, as in the source, where `download_temp_file` runs before the dispatch.
- **Integers** are Python integers: unbounded. A negative `max_chunks` is truthy, so it drops that many chunks from the end, as `chunks[:m]` does in Python.
- **The citation string** depends on the page only. The model formats it once per page and passes it to the inner loops, which is the value the source formats for every chunk.

Where one might expect otherwise, the model follows the code:

- the code raises `ValueError` with the message `"Unsupported file type: " + ext` rather than a dedicated error type;
- it makes no chunk-size/overlap configuration check;
- it compares the extension without lower-casing it (only the older, commented-out revision lower-cases it).

## Model

| member | source | states |
|---|---|---|
| PyText.IsSpace | backend/app/services/processDocuments.py:161 | the whitespace set `strip()` removes: Python's `str.isspace` code points (tab to carriage return, the separators U+001C to U+001F, space, U+0085, no-break space, the Unicode space separators, line and paragraph separators); not U+200B |
| PyText.Strip | backend/app/services/processDocuments.py:161 | `p.strip()` has no leading or trailing whitespace and is no longer than `p` |
| PyText.StripSlice | backend/app/services/processDocuments.py:161 | `strip` removes only whitespace: the result is a contiguous middle part of the text, and everything before and after it is whitespace |
| PyText.StripEmpty | backend/app/services/processDocuments.py:161 | `p.strip()` is empty (falsy) exactly when `p` is only whitespace |
| PyText.StripOfStripped | backend/app/services/processDocuments.py:161 | a text without surrounding whitespace is left unchanged by `strip` |
| PyText.StripIdempotent | backend/app/services/processDocuments.py:161 | stripping twice is stripping once |
| PyText.Split | backend/app/services/processDocuments.py:161 | `text.split(sep)` always gives at least one piece |
| PyText.SplitHeadPrefix | backend/app/services/processDocuments.py:161 | the first piece of a split is a prefix of the text |
| PyText.JoinSplit | backend/app/services/processDocuments.py:161 | joining the pieces of `text.split(sep)` with `sep` gives back `text`, so splitting loses nothing and reorders nothing |
| PyText.SplitPiecesFree | backend/app/services/processDocuments.py:161 | no piece of `text.split(sep)` contains `sep` |
| PyText.SplitWithoutSep | backend/app/services/processDocuments.py:161 | a text without the separator splits into itself alone |
| PyText.SplitAfter | backend/app/services/processDocuments.py:161 | when no separator starts inside `a`, the split of `a + sep + b` is `a` followed by the split of `b` |
| PyText.Join | backend/app/services/processDocuments.py:134 | `sep.join(parts)`: the parts in order with `sep` between neighbours (no separator for zero or one part); `JoinSplit` and `SplitJoin` relate it to `split` |
| PyText.SplitJoin | backend/app/services/processDocuments.py:134 | splitting `sep.join(parts)` at `sep` gives back `parts`, when no separator occurrence starts inside a part |
| PyText.SplitAllSpace | backend/app/services/processDocuments.py:161 | every piece of a whitespace-only text is whitespace-only |
| PyText.NatDigits | backend/app/services/processDocuments.py:175 | the decimal digits of a natural number are a non-empty string of `'0'..'9'` |
| PyText.NoLeadingZero | backend/app/services/processDocuments.py:175 | the digits are canonical: the leading digit is `'0'` exactly for 0 |
| PyText.DecimalString | backend/app/services/processDocuments.py:175 | `str(n)` starts with `'-'` exactly when `n` is negative |
| PyText.ParseNatDigits | backend/app/services/processDocuments.py:175 | reading back the digits of `n` gives `n` |
| PyText.NatDigitsInjective | backend/app/services/processDocuments.py:175 | different naturals have different digit strings |
| PyText.DecimalStringInjective | backend/app/services/processDocuments.py:175 | `str` on integers is injective |
| Extract.TextBlocks | backend/app/services/processDocuments.py:133 | filtering the blocks keeps at most as many texts as there are blocks |
| Extract.TextBlocksAppend | backend/app/services/processDocuments.py:133 | filtering a concatenation filters each part in turn, so kept blocks stay in block order |
| Extract.TextBlocksMembers | backend/app/services/processDocuments.py:133 | a text is kept exactly when some block with type flag 0 carries it |
| Extract.PdfPages | backend/app/services/processDocuments.py:131-135 | a PDF yields exactly one page per PDF page |
| Extract.PageText | backend/app/services/processDocuments.py:133-134 | a PDF page's text: its type-0 block texts, in block order, joined by `"\n\n"` |
| Extract.ExtractTextFromPdf | backend/app/services/processDocuments.py:128-136 | the loop appends page `i + 1` with the blank-line join of page `i`'s text blocks, for every page in order; numbers run 1..n and strictly increase |
| Extract.ExtractTextFromTxt | backend/app/services/processDocuments.py:138-141 | one page, numbered 1, holding the whole decoded text |
| Extract.ExtractTextFromImage | backend/app/services/processDocuments.py:143-146 | one page, numbered 1, holding the whole OCR text |
| Extract.SplitPageText | backend/app/services/processDocuments.py:134 | splitting a PDF page's text at blank lines gives back its text blocks when they are clean |
| Chunking.SmartChunk | backend/app/services/processDocuments.py:148-154 | the splitter's pieces for the text under size 500, overlap 50 and separators `["\n\n", "\n", ".", " "]`; nothing else is assumed about them |
| Chunking.StrippedNonBlank | backend/app/services/processDocuments.py:161 | the comprehension keeps at most one paragraph per piece, each non-empty and without surrounding whitespace |
| Chunking.Paragraphs | backend/app/services/processDocuments.py:161 | every paragraph of a page is non-empty and stripped |
| Chunking.StrippedNonBlankAppend | backend/app/services/processDocuments.py:161 | the paragraphs of consecutive runs of pieces are those of each run, in order |
| Chunking.StrippedNonBlankMembers | backend/app/services/processDocuments.py:161 | a string is a paragraph exactly when it is non-empty and is the stripped form of some piece |
| Chunking.ParagraphMembers | backend/app/services/processDocuments.py:161 | the paragraphs of a text are exactly the non-blank `"\n\n"`-pieces of the text, stripped |
| Chunking.AllBlankPiecesDropped | backend/app/services/processDocuments.py:161 | whitespace-only pieces are all dropped |
| Chunking.BlankTextNoParagraphs | backend/app/services/processDocuments.py:161 | a whitespace-only page has no paragraphs |
| Chunking.CleanPiecesKept | backend/app/services/processDocuments.py:161 | non-blank, already stripped pieces are all kept, unchanged and in order |
| Chunking.PdfParagraphsAreTextBlocks | backend/app/services/processDocuments.py:161 | when PyMuPDF's text blocks are clean, the paragraphs of an extracted PDF page are exactly its text blocks, in block order |
| Chunking.SourceOf | backend/app/services/processDocuments.py:175 | the citation string is `doc_id`, then `_page_`, then `str(page)` |
| Chunking.SourceDistinguishesPages | backend/app/services/processDocuments.py:175 | within one document, equal `source` strings mean equal page numbers |
| Chunking.Paragraphed | backend/app/services/processDocuments.py:158-161 | one entry per page, in page order: its number, its citation string and its paragraphs (reference definition) |
| Chunking.ParagraphRecords | backend/app/services/processDocuments.py:165-177 | one record per splitter piece of a paragraph, in piece order, with chunk index 0, 1, ... (reference definition) |
| Chunking.PageRecordsUpTo | backend/app/services/processDocuments.py:163-177 | the records of a page's first `n` paragraphs, paragraph after paragraph (reference definition) |
| Chunking.Records | backend/app/services/processDocuments.py:158-178 | the records of a run of pages, page after page (reference definition) |
| Chunking.DocRecords | backend/app/services/processDocuments.py:156-178 | the records of a whole document before identifiers are drawn; `ChunkWithMetadata` is proved to produce exactly these, stamped (reference definition) |
| Chunking.Stamp | backend/app/services/processDocuments.py:166-168 | one chunk per record, with the same text and metadata |
| Chunking.StampStep | backend/app/services/processDocuments.py:166-168 | stamping one more record appends one chunk carrying the next identifier drawn |
| Chunking.AppendParagraphChunks | backend/app/services/processDocuments.py:165-177 | the piece loop appends, to the chunks so far, one chunk per splitter piece of the paragraph, with chunk indices 0, 1, ... and fresh identifiers |
| Chunking.AppendPageChunks | backend/app/services/processDocuments.py:163-177 | the paragraph loop appends the records of every paragraph of the page, paragraph after paragraph |
| Chunking.ChunkWithMetadata | backend/app/services/processDocuments.py:156-178 | the output is the document's records in page, paragraph, piece order, with the `k`-th identifier drawn on the `k`-th chunk; with a generator that never repeats itself, the ids are pairwise different |
| Chunking.PageRecordsCount | backend/app/services/processDocuments.py:163-177 | a page yields as many records as its paragraphs have splitter pieces in total |
| Chunking.RecordCount | backend/app/services/processDocuments.py:156-178 | the number of chunks is the sum of the splitter piece counts over all paragraphs of all pages |
| Chunking.RecordsAppend | backend/app/services/processDocuments.py:158-178 | the records of two runs of pages are those of the first run followed by those of the second |
| Chunking.RecordsSkipEmpty | backend/app/services/processDocuments.py:158-178 | a page without records can be removed without changing the output |
| Chunking.ParagraphedRemove | backend/app/services/processDocuments.py:158-161 | paragraphing pages commutes with removing a page |
| Chunking.BlankPageNoRecords | backend/app/services/processDocuments.py:158-178 | a whitespace-only page contributes nothing: the output equals that of the document without the page |
| Chunking.PageRecordAt | backend/app/services/processDocuments.py:163-177 | piece `j` of paragraph `p` is record number (records of paragraphs before `p`) + `j` of its page |
| Chunking.PageRecordOrigin | backend/app/services/processDocuments.py:163-177 | every record of a page is piece `j` of some paragraph `p`, at that position |
| Chunking.RecordAt | backend/app/services/processDocuments.py:156-178 | every splitter piece `(page i, paragraph p, piece j)` becomes the record at its position: text unchanged, `doc_id`, the page's number, `paragraph = p`, `chunk_index = j` and the page's citation string |
| Chunking.RecordOrigin | backend/app/services/processDocuments.py:156-178 | conversely, every record is some piece, at that piece's position: there are no other records |
| Chunking.RecordProvenance | backend/app/services/processDocuments.py:170-176 | every record names the document, the number of one of its pages and `doc_id + "_page_" + str(page)`, and its text is the splitter piece its paragraph and chunk indices point to on that page |
| Chunking.ChunkIndicesContiguous | backend/app/services/processDocuments.py:165-174 | chunk indices within a paragraph are contiguous: piece `j > 0` directly follows piece `j - 1` of the same paragraph |
| Chunking.PageRecordsOrdered | backend/app/services/processDocuments.py:163-177 | within a page, records are in paragraph and chunk-index order and all carry the page's number |
| Chunking.RecordsOrdered | backend/app/services/processDocuments.py:158-178 | with strictly increasing page numbers, the records are strictly ordered by (page, paragraph, chunk index) |
| Chunking.ParagraphedKeepsNumbers | backend/app/services/processDocuments.py:159-161 | paragraphing keeps the pages' numbers and their order |
| Driver.UnsupportedMessage | backend/app/services/processDocuments.py:192 | the error message is `"Unsupported file type: "` followed by the extension |
| Driver.Dispatch | backend/app/services/processDocuments.py:185-192 | exactly `.pdf`, `.txt`, `.png`, `.jpg`, `.jpeg` are accepted, each selecting its reader; anything else fails with `"Unsupported file type: " + ext` |
| Driver.DispatchIsCaseSensitive | backend/app/services/processDocuments.py:185-192 | `.PDF`, `.Txt`, `.JPG`, `pdf` and `.docx` are refused |
| Driver.SliceStop | backend/app/services/processDocuments.py:201 | the end index of Python's `xs[:stop]`: `stop` clamped to the length, counted from the end when negative |
| Driver.Trim | backend/app/services/processDocuments.py:199-201 | the cap always keeps a prefix and never fails; a `None` or 0 cap keeps everything; a positive cap keeps `min(count, cap)` chunks; a negative one keeps `max(0, count + cap)` |
| Driver.ExtractedPages | backend/app/services/processDocuments.py:185-190 | the selected reader fails exactly when its library raises; a PDF gives one page per PDF page numbered 1..n, strictly increasing; a text file or image gives one page numbered 1 holding the whole text |
| Driver.ProcessOutcome | backend/app/services/processDocuments.py:180-203 | the reference outcome: fetch failure first, then the unsupported-extension error, then reader failure, otherwise the capped, stamped records of the extracted pages |
| Driver.ProcessFileFromUrl | backend/app/services/processDocuments.py:180-203 | the driver's result is the specification outcome: fetch failure, unsupported extension, reader failure, or the capped chunks of the extracted pages |
| Driver.UnsupportedExtensionRefused | backend/app/services/processDocuments.py:190-192 | a downloaded file with any other extension fails with the "Unsupported file type" error and yields no chunks |
| Driver.FalsyCapIgnored | backend/app/services/processDocuments.py:199 | `max_chunks = 0` behaves as no cap at all |
| Driver.CapKeepsPrefix | backend/app/services/processDocuments.py:199-201 | a positive cap below the count keeps exactly the first `max_chunks` chunks of the uncapped result, in order; otherwise nothing changes; the cap never turns success into failure or back |
| Driver.TwelveCappedToFive | backend/app/services/processDocuments.py:199-201 | a document giving 12 chunks, capped at 5, gives its first 5 |
| Driver.SuccessIsStampedPrefix | backend/app/services/processDocuments.py:196-203 | a successful result is a prefix of the stamped records of the pages the selected reader produced |
| Driver.PdfChunksOrdered | backend/app/services/processDocuments.py:185-203 | a PDF's chunks come out ordered by page, then paragraph, then chunk index |
| Driver.FirstPageSource | backend/app/services/processDocuments.py:175 | page 1's citation string is `doc_id + "_page_1"` |
| Driver.SinglePageProvenance | backend/app/services/processDocuments.py:138-146 | every chunk of a text file or an image names the document, page 1 and `doc_id + "_page_1"` |
| Driver.BlankTextFileNoChunks | backend/app/services/processDocuments.py:138-141 | a whitespace-only text file yields no chunks |
| Driver.DistinctIds | backend/app/services/processDocuments.py:166 | with an identifier generator that never repeats itself, the chunks of a run have pairwise different ids |

## Left out

- `download_temp_file` (lines 119-126) and the removal of the temporary file in `finally` (lines 193-194) are network and filesystem I/O. The download's outcome is an input (`None` when `requests` raised). The release of the temporary file is not modelled.
- PyMuPDF, the text-mode reader, PIL and pytesseract (lines 129, 132, 139-140, 144-145) are foreign libraries. What they return is an input, and `None` stands for any exception they raise. Decoding bytes to text is not modelled. A text file enters the model as the text-mode read returns it, after UTF-8 decoding and universal-newline translation (`"\r\n"` and `"\r"` read as `"\n"`), which decides where blank lines split paragraphs.
- The internals of the recursive character splitter (lines 149-154) cannot be seen. The splitter is a parameter, and no bound on chunk length or overlap is claimed.
- Identifiers are drawn from `uuid.uuid4()` (line 166). They are random, so the `k`-th draw is an arbitrary `uuid(k)`. Uniqueness is proved only under the hypothesis that the generator never repeats itself.
- The `spacy.load` at line 117 is never used, and the `logging` calls (lines 181, 197, 200) have no effect on the result. Both are left out. So is the warning that trimming logs.
- The commented-out older revision (lines 1-103) is not part of this model. It lower-cases the extension and derives the document id from the file name.
- Chunking.ChunkIndicesContiguous: stated over piece coordinates `(page, paragraph, piece)` rather than over arbitrary neighbouring records. When two pages share a number, two records can carry the same `(page, paragraph)`, and only the coordinates tell them apart.
- Chunking.PdfParagraphsAreTextBlocks: holds only for "clean" text blocks: not blank, not padded with whitespace, without a blank line inside. PyMuPDF's block text usually ends with a line break, so typical blocks are not clean. For such blocks the model still computes the paragraphs exactly as the code does, but no lemma relates them to the blocks.
- The rest of the repository is not part of this model: the upload API, embedding and vector-store calls, retrieval, theme summarisation, the HTTP routes and the front end.

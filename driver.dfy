/** The driver `process_file_from_url`: stage the file, pick a reader by the
    declared extension, assemble the chunks and optionally cap their number.
    The download and the reading libraries are inputs: what they return, or
    `None` where they raise. */
module Driver {
  import opened Wrappers
  import opened PyText
  import opened Extract
  import opened Chunking

  /** The reader a supported extension selects. */
  datatype FileKind = Pdf | PlainText | Image

  /** Why a document yields no chunks. */
  datatype Error =
    | FetchFailed                           // the download raised (network error or HTTP error status)
    | UnsupportedFileType(message: string)  // the `ValueError` of the dispatch
    | ExtractionFailed                      // the reading library raised

  const SupportedExtensions: set<string> := {".pdf", ".txt", ".png", ".jpg", ".jpeg"}

  const ImageExtensions: set<string> := {".png", ".jpg", ".jpeg"}

  /** The message of the error raised for an extension no reader handles. */
  function UnsupportedMessage(ext: string): (r: string)
    ensures |r| == 23 + |ext| && r[..23] == "Unsupported file type: " && r[23..] == ext
  {
    "Unsupported file type: " + ext
  }

  /** The `if`/`elif` chain on `file_ext`: exact string comparison, so case
      and the leading dot matter. */
  function Dispatch(ext: string): (r: Result<FileKind, Error>)
    ensures r.Success? <==> ext in SupportedExtensions
    ensures r == Success(Pdf) <==> ext == ".pdf"
    ensures r == Success(PlainText) <==> ext == ".txt"
    ensures r == Success(Image) <==> ext in ImageExtensions
    ensures r.Failure? ==> r.error == UnsupportedFileType(UnsupportedMessage(ext))
  {
    if ext == ".pdf" then Success(Pdf)
    else if ext == ".txt" then Success(PlainText)
    else if ext in [".png", ".jpg", ".jpeg"] then Success(Image)
    else Failure(UnsupportedFileType(UnsupportedMessage(ext)))
  }

  /** Upper-case spellings, other document formats and extensions without
      the dot are all refused. */
  lemma DispatchIsCaseSensitive()
    ensures Dispatch(".PDF").Failure? && Dispatch(".Txt").Failure? && Dispatch(".JPG").Failure?
    ensures Dispatch(".docx") == Failure(UnsupportedFileType("Unsupported file type: .docx"))
    ensures Dispatch("pdf").Failure?
  {
    assert ".PDF" != ".pdf" by { assert ".PDF"[1] != ".pdf"[1]; }
    assert ".Txt" != ".txt" by { assert ".Txt"[1] != ".txt"[1]; }
    assert ".JPG" != ".jpg" by { assert ".JPG"[1] != ".jpg"[1]; }
    assert ".docx" !in SupportedExtensions by { assert ".docx"[1] == 'd'; }
    assert UnsupportedMessage(".docx") == "Unsupported file type: .docx";
  }

  /** What the reading libraries make of the staged file, one entry per
      reader: PyMuPDF's blocks per page, the file as read in text mode
      (UTF-8, universal newlines, so `"\r\n"` and `"\r"` already read as
      `"\n"`), and Tesseract's text for the image; `None` where that library
      raises. */
  datatype Staged = Staged(
    pdf: Option<seq<seq<Block>>>,
    utf8: Option<string>,
    ocr: Option<string>)

  /** The pages the selected reader yields, or `None` when it raises. */
  function ExtractedPages(kind: FileKind, file: Staged): (r: Option<seq<Page>>)
    ensures r.None? <==> match kind
                         case Pdf => file.pdf.None?
                         case PlainText => file.utf8.None?
                         case Image => file.ocr.None?
    ensures r.Some? && kind == Pdf ==>
              |r.value| == |file.pdf.value| && NumberedFromOne(r.value) && StrictlyIncreasing(r.value)
    ensures r.Some? && kind != Pdf ==> |r.value| == 1 && r.value[0].number == 1
    ensures r.Some? && kind == PlainText ==> r.value[0].text == file.utf8.value
    ensures r.Some? && kind == Image ==> r.value[0].text == file.ocr.value
  {
    match kind
    case Pdf => if file.pdf.Some? then Some(PdfPages(file.pdf.value)) else None
    case PlainText => if file.utf8.Some? then Some(ExtractTextFromTxt(file.utf8.value)) else None
    case Image => if file.ocr.Some? then Some(ExtractTextFromImage(file.ocr.value)) else None
  }

  /** The end index Python's `xs[:stop]` uses on a list of length `n`: a
      negative `stop` counts back from the end, and both ends are clamped. */
  function SliceStop(n: nat, stop: int): (k: nat)
    ensures k <= n
    ensures 0 <= stop <= n ==> k == stop
    ensures stop > n ==> k == n
    ensures stop < 0 ==> k == (if n + stop > 0 then n + stop else 0)
  {
    if stop >= 0 then (if stop < n then stop else n)
    else if n + stop > 0 then n + stop else 0
  }

  /** The cap on the chunk count: when `max_chunks` is truthy (given and not
      0) and below the count, the list becomes `chunks[:max_chunks]`. It
      never fails, and it only ever keeps a prefix. */
  function Trim<T>(chunks: seq<T>, maxChunks: Option<int>): (r: seq<T>)
    ensures |r| <= |chunks| && r == chunks[..|r|]
    ensures maxChunks == None || maxChunks == Some(0) ==> r == chunks
    ensures maxChunks.Some? && maxChunks.value > 0 ==>
            |r| == (if |chunks| < maxChunks.value then |chunks| else maxChunks.value)
    ensures maxChunks.Some? && maxChunks.value < 0 ==>
            |r| == (if |chunks| + maxChunks.value > 0 then |chunks| + maxChunks.value else 0)
  {
    if maxChunks.Some? && maxChunks.value != 0 && |chunks| > maxChunks.value then
      chunks[..SliceStop(|chunks|, maxChunks.value)]
    else chunks
  }

  /** What `process_file_from_url` returns or raises, given the download's
      outcome (`None` when it raised), the document id, the declared
      extension, the cap, the splitter and the identifier generator. */
  function ProcessOutcome(downloaded: Option<Staged>, docId: string, ext: string, maxChunks: Option<int>,
                          split: Splitter, uuid: nat -> string): Result<seq<Chunk>, Error>
  {
    if downloaded.None? then Failure(FetchFailed)
    else match Dispatch(ext)
      case Failure(e) => Failure(e)
      case Success(kind) =>
        match ExtractedPages(kind, downloaded.value)
        case None => Failure(ExtractionFailed)
        case Some(pages) => Success(Trim(Stamp(DocRecords(pages, docId, split), uuid), maxChunks))
  }

  /** `process_file_from_url(file_url, doc_id, file_ext, max_chunks)`. The
      download comes first, so a failed download is reported even for an
      extension that would be refused. */
  method ProcessFileFromUrl(downloaded: Option<Staged>, docId: string, ext: string, maxChunks: Option<int>,
                            split: Splitter, uuid: nat -> string)
    returns (r: Result<seq<Chunk>, Error>)
    ensures r == ProcessOutcome(downloaded, docId, ext, maxChunks, split, uuid)
  {
    if downloaded.None? {
      return Failure(FetchFailed);
    }
    var file := downloaded.value;
    var pages: seq<Page>;
    if ext == ".pdf" {
      if file.pdf.None? {
        return Failure(ExtractionFailed);
      }
      pages := ExtractTextFromPdf(file.pdf.value);
    } else if ext == ".txt" {
      if file.utf8.None? {
        return Failure(ExtractionFailed);
      }
      pages := ExtractTextFromTxt(file.utf8.value);
    } else if ext in [".png", ".jpg", ".jpeg"] {
      if file.ocr.None? {
        return Failure(ExtractionFailed);
      }
      pages := ExtractTextFromImage(file.ocr.value);
    } else {
      return Failure(UnsupportedFileType(UnsupportedMessage(ext)));
    }
    var chunks := ChunkWithMetadata(pages, docId, split, uuid);
    if maxChunks.Some? && maxChunks.value != 0 && |chunks| > maxChunks.value {
      chunks := chunks[..SliceStop(|chunks|, maxChunks.value)];
    }
    return Success(chunks);
  }

  // ---------------------------------------------------------------------
  // What a caller observes

  /** A downloaded file with an extension no reader handles is refused with
      the "Unsupported file type" error, and no chunks are produced. */
  lemma UnsupportedExtensionRefused(downloaded: Option<Staged>, docId: string, ext: string, maxChunks: Option<int>,
                                    split: Splitter, uuid: nat -> string)
    requires downloaded.Some? && ext !in SupportedExtensions
    ensures ProcessOutcome(downloaded, docId, ext, maxChunks, split, uuid)
            == Failure(UnsupportedFileType("Unsupported file type: " + ext))
  {
    assert Dispatch(ext).Failure?;
  }

  /** A falsy cap (`None` or 0) leaves the chunk list as assembled. */
  lemma FalsyCapIgnored(downloaded: Option<Staged>, docId: string, ext: string, split: Splitter, uuid: nat -> string)
    ensures ProcessOutcome(downloaded, docId, ext, Some(0), split, uuid)
            == ProcessOutcome(downloaded, docId, ext, None, split, uuid)
  {
    if downloaded.Some? && Dispatch(ext).Success? {
      var pages := ExtractedPages(Dispatch(ext).value, downloaded.value);
      if pages.Some? {
        var all := Stamp(DocRecords(pages.value, docId, split), uuid);
        assert Trim(all, Some(0)) == all == Trim(all, None);
      }
    }
  }

  /** A positive cap below the count keeps exactly the first `max_chunks`
      chunks of the uncapped result, in their original order; a cap at or
      above the count changes nothing. The cap never turns a success into a
      failure or the other way round. */
  lemma CapKeepsPrefix(downloaded: Option<Staged>, docId: string, ext: string, m: int,
                       split: Splitter, uuid: nat -> string)
    requires m > 0
    ensures ProcessOutcome(downloaded, docId, ext, Some(m), split, uuid).Success?
            <==> ProcessOutcome(downloaded, docId, ext, None, split, uuid).Success?
    ensures var capped, all := ProcessOutcome(downloaded, docId, ext, Some(m), split, uuid),
                               ProcessOutcome(downloaded, docId, ext, None, split, uuid);
            all.Success? ==>
              if |all.value| > m then |capped.value| == m && capped.value == all.value[..m]
              else capped.value == all.value
  {
    if downloaded.Some? && Dispatch(ext).Success? {
      var pages := ExtractedPages(Dispatch(ext).value, downloaded.value);
      if pages.Some? {
        var all := Stamp(DocRecords(pages.value, docId, split), uuid);
        var capped := Trim(all, Some(m));
        assert ProcessOutcome(downloaded, docId, ext, None, split, uuid) == Success(all);
        assert ProcessOutcome(downloaded, docId, ext, Some(m), split, uuid) == Success(capped);
      }
    }
  }

  /** A document that would give 12 chunks, capped at 5, gives its first 5. */
  lemma TwelveCappedToFive(downloaded: Option<Staged>, docId: string, ext: string, split: Splitter, uuid: nat -> string)
    requires ProcessOutcome(downloaded, docId, ext, None, split, uuid).Success?
    requires |ProcessOutcome(downloaded, docId, ext, None, split, uuid).value| == 12
    ensures var capped := ProcessOutcome(downloaded, docId, ext, Some(5), split, uuid);
            capped.Success? && |capped.value| == 5
            && capped.value == ProcessOutcome(downloaded, docId, ext, None, split, uuid).value[..5]
  {
    CapKeepsPrefix(downloaded, docId, ext, 5, split, uuid);
  }

  /** The chunks of a successful run are a prefix of the stamped records of
      the pages the selected reader produced. */
  lemma SuccessIsStampedPrefix(downloaded: Option<Staged>, docId: string, ext: string, maxChunks: Option<int>,
                               split: Splitter, uuid: nat -> string)
    requires ProcessOutcome(downloaded, docId, ext, maxChunks, split, uuid).Success?
    ensures downloaded.Some? && Dispatch(ext).Success?
    ensures var pages := ExtractedPages(Dispatch(ext).value, downloaded.value);
            var out := ProcessOutcome(downloaded, docId, ext, maxChunks, split, uuid).value;
            pages.Some? && var all := Stamp(DocRecords(pages.value, docId, split), uuid);
            |out| <= |all| && out == all[..|out|]
  {
  }

  /** Keeping a prefix keeps the chunks' provenance order. */
  lemma PrefixKeepsOrder(records: seq<Record>, uuid: nat -> string, n: nat)
    requires InProvenanceOrder(records) && n <= |records|
    ensures forall k, l :: 0 <= k < l < n ==>
              Precedes(Stamp(records, uuid)[k].metadata, Stamp(records, uuid)[l].metadata)
  {
    var stamped := Stamp(records, uuid);
    forall k, l | 0 <= k < l < n
      ensures Precedes(stamped[k].metadata, stamped[l].metadata)
    {
      assert stamped[k].metadata == records[k].metadata && stamped[l].metadata == records[l].metadata;
    }
  }

  /** The chunks of a PDF come out in provenance order: by page, then
      paragraph, then chunk index, so no two chunks share that triple. */
  lemma PdfChunksOrdered(downloaded: Option<Staged>, docId: string, maxChunks: Option<int>,
                         split: Splitter, uuid: nat -> string)
    requires ProcessOutcome(downloaded, docId, ".pdf", maxChunks, split, uuid).Success?
    ensures var out := ProcessOutcome(downloaded, docId, ".pdf", maxChunks, split, uuid).value;
            forall k, l :: 0 <= k < l < |out| ==> Precedes(out[k].metadata, out[l].metadata)
  {
    var pages := PdfPages(downloaded.value.pdf.value);
    var records := DocRecords(pages, docId, split);
    var out := ProcessOutcome(downloaded, docId, ".pdf", maxChunks, split, uuid).value;
    assert StrictlyIncreasing(pages);
    ParagraphedKeepsNumbers(pages, docId);
    RecordsOrdered(Paragraphed(pages, docId), docId, split);
    assert out == Trim(Stamp(records, uuid), maxChunks);
    PrefixKeepsOrder(records, uuid, |out|);
  }

  /** The citation string of the first page. */
  lemma FirstPageSource(docId: string)
    ensures SourceOf(docId, 1) == docId + "_page_1"
  {
    assert DecimalString(1) == [DigitChar(1)] == "1";
  }

  /** Every record of a one-page document numbered 1 names the document,
      page 1 and the first page's citation string. */
  lemma OnePageRecords(text: string, docId: string, split: Splitter, k: int)
    requires 0 <= k < |DocRecords([Page(1, text)], docId, split)|
    ensures var m := DocRecords([Page(1, text)], docId, split)[k].metadata;
            m.docId == docId && m.page == 1 && m.source == docId + "_page_1"
  {
    RecordProvenance([Page(1, text)], docId, split, k);
    FirstPageSource(docId);
  }

  /** A plain-text file or an image is one page: every chunk names the
      document, page 1 and the citation string `doc_id + "_page_1"`. */
  lemma SinglePageProvenance(downloaded: Option<Staged>, docId: string, ext: string, maxChunks: Option<int>,
                             split: Splitter, uuid: nat -> string, k: int)
    requires ext == ".txt" || ext in ImageExtensions
    requires ProcessOutcome(downloaded, docId, ext, maxChunks, split, uuid).Success?
    requires 0 <= k < |ProcessOutcome(downloaded, docId, ext, maxChunks, split, uuid).value|
    ensures var c := ProcessOutcome(downloaded, docId, ext, maxChunks, split, uuid).value[k];
            c.metadata.docId == docId && c.metadata.page == 1 && c.metadata.source == docId + "_page_1"
  {
    var text := if ext == ".txt" then downloaded.value.utf8.value else downloaded.value.ocr.value;
    var records := DocRecords([Page(1, text)], docId, split);
    var out := ProcessOutcome(downloaded, docId, ext, maxChunks, split, uuid).value;
    assert out == Trim(Stamp(records, uuid), maxChunks);
    assert out[k].metadata == records[k].metadata;
    OnePageRecords(text, docId, split, k);
  }

  /** A plain-text file holding only whitespace gives no chunks at all. */
  lemma BlankTextFileNoChunks(file: Staged, docId: string, maxChunks: Option<int>, split: Splitter, uuid: nat -> string)
    requires file.utf8.Some? && AllSpace(file.utf8.value)
    ensures ProcessOutcome(Some(file), docId, ".txt", maxChunks, split, uuid) == Success([])
  {
    var pages := ExtractTextFromTxt(file.utf8.value);
    BlankTextNoParagraphs(file.utf8.value);
    var parts := Paragraphed(pages, docId);
    assert parts[..0] == [];
    assert Records(parts, docId, split) == [];
  }

  /** With an identifier generator that never repeats itself, the chunks of
      a successful run have pairwise different ids. */
  lemma DistinctIds(downloaded: Option<Staged>, docId: string, ext: string, maxChunks: Option<int>,
                    split: Splitter, uuid: nat -> string)
    requires forall a: nat, b: nat :: uuid(a) == uuid(b) ==> a == b
    requires ProcessOutcome(downloaded, docId, ext, maxChunks, split, uuid).Success?
    ensures var out := ProcessOutcome(downloaded, docId, ext, maxChunks, split, uuid).value;
            forall k, l :: 0 <= k < l < |out| ==> out[k].id != out[l].id
  {
    var pages := ExtractedPages(Dispatch(ext).value, downloaded.value).value;
    var all := Stamp(DocRecords(pages, docId, split), uuid);
    var out := ProcessOutcome(downloaded, docId, ext, maxChunks, split, uuid).value;
    assert out == all[..|out|];
    forall k, l | 0 <= k < l < |out|
      ensures out[k].id != out[l].id
    {
      assert out[k].id == uuid(k) && out[l].id == uuid(l);
    }
  }
}

/** Chunk assembly (`chunk_with_metadata`): every page is cut into paragraphs
    at blank lines, every paragraph is handed to the text splitter
    (`smart_chunk`), and every piece becomes one chunk record carrying its
    provenance: document, page, paragraph index, chunk index and a citation
    string. */
module Chunking {
  import opened PyText
  import opened Extract

  /** The `metadata` dictionary of a chunk. */
  datatype Metadata = Metadata(
    docId: string,
    page: int,
    paragraph: nat,
    chunkIndex: nat,
    source: string)

  /** A chunk as emitted: `{"id": ..., "text": ..., "metadata": ...}`. */
  datatype Chunk = Chunk(id: string, text: string, metadata: Metadata)

  /** A chunk before its random identifier is drawn. */
  datatype Record = Record(text: string, metadata: Metadata)

  /** The configuration handed to the recursive character splitter. */
  datatype SplitterSettings = SplitterSettings(
    chunkSize: nat,
    chunkOverlap: nat,
    separators: seq<string>)

  /** The settings `smart_chunk` always uses. */
  const SmartChunkSettings: SplitterSettings :=
    SplitterSettings(500, 50, ["\n\n", "\n", ".", " "])

  /** The recursive character splitter of the text-splitting library; its
      internals are not part of this model, so it is a parameter. */
  type Splitter = (SplitterSettings, string) -> seq<string>

  /** `smart_chunk(text)`: the splitter's pieces for `text` under the fixed settings. */
  function SmartChunk(split: Splitter, text: string): seq<string> {
    split(SmartChunkSettings, text)
  }

  const ParagraphSeparator: string := "\n\n"

  // ---------------------------------------------------------------------
  // Paragraphs

  /** `[p.strip() for p in pieces if p.strip()]`. */
  function StrippedNonBlank(pieces: seq<string>): (r: seq<string>)
    ensures |r| <= |pieces|
    ensures forall k :: 0 <= k < |r| ==> r[k] != [] && IsStripped(r[k])
  {
    if pieces == [] then []
    else (if Strip(pieces[0]) != [] then [Strip(pieces[0])] else []) + StrippedNonBlank(pieces[1..])
  }

  /** The paragraphs of a page's text: its blank-line separated pieces,
      stripped, with the blank ones dropped. */
  function Paragraphs(text: string): (r: seq<string>)
    ensures forall k :: 0 <= k < |r| ==> r[k] != [] && IsStripped(r[k])
  {
    StrippedNonBlank(Split(text, ParagraphSeparator))
  }

  /** Paragraph extraction respects order: the paragraphs of consecutive runs
      of pieces are those of each run, one after the other. */
  lemma {:induction false} StrippedNonBlankAppend(a: seq<string>, b: seq<string>)
    ensures StrippedNonBlank(a + b) == StrippedNonBlank(a) + StrippedNonBlank(b)
    decreases |a|
  {
    if a == [] {
      EmptyConcat(b);
    } else {
      var head := if Strip(a[0]) != [] then [Strip(a[0])] else [];
      ConsAppend(a, b);
      StrippedNonBlankAppend(a[1..], b);
      ConcatAssoc(head, StrippedNonBlank(a[1..]), StrippedNonBlank(b));
    }
  }

  /** A paragraph is exactly the stripped form of a piece that is not blank. */
  lemma {:induction false} StrippedNonBlankMembers(pieces: seq<string>, t: string)
    ensures t in StrippedNonBlank(pieces) <==>
            t != [] && exists k :: 0 <= k < |pieces| && Strip(pieces[k]) == t
    decreases |pieces|
  {
    if pieces != [] {
      StrippedNonBlankMembers(pieces[1..], t);
      if t != [] && t in StrippedNonBlank(pieces[1..]) {
        var k :| 0 <= k < |pieces[1..]| && Strip(pieces[1..][k]) == t;
        assert Strip(pieces[k + 1]) == t;
      }
      if k :| 0 <= k < |pieces| && Strip(pieces[k]) == t {
        if k > 0 {
          assert Strip(pieces[1..][k - 1]) == t;
        }
      }
    }
  }

  /** The paragraphs of a text are drawn from its blank-line separated pieces. */
  lemma ParagraphsOfPieces(text: string)
    ensures Paragraphs(text) == StrippedNonBlank(Split(text, ParagraphSeparator))
  {
  }

  /** The paragraphs of a page are exactly the non-blank blank-line separated
      pieces of its text, stripped. */
  lemma ParagraphMembers(text: string, t: string)
    ensures t in Paragraphs(text) <==>
            t != [] && exists k :: 0 <= k < |Split(text, ParagraphSeparator)| && Strip(Split(text, ParagraphSeparator)[k]) == t
  {
    ParagraphsOfPieces(text);
    StrippedNonBlankMembers(Split(text, ParagraphSeparator), t);
  }

  lemma {:induction false} AllBlankPiecesDropped(pieces: seq<string>)
    requires forall k :: 0 <= k < |pieces| ==> AllSpace(pieces[k])
    ensures StrippedNonBlank(pieces) == []
    decreases |pieces|
  {
    if pieces != [] {
      StripEmpty(pieces[0]);
      AllBlankPiecesDropped(pieces[1..]);
    }
  }

  /** A page whose text is only whitespace has no paragraphs. */
  lemma BlankTextNoParagraphs(text: string)
    requires AllSpace(text)
    ensures Paragraphs(text) == []
  {
    SplitAllSpace(text, ParagraphSeparator);
    AllBlankPiecesDropped(Split(text, ParagraphSeparator));
  }

  lemma {:induction false} CleanPiecesKept(pieces: seq<string>)
    requires forall k :: 0 <= k < |pieces| ==> CleanBlockText(pieces[k])
    ensures StrippedNonBlank(pieces) == pieces
    decreases |pieces|
  {
    if pieces != [] {
      StripOfStripped(pieces[0]);
      CleanPiecesKept(pieces[1..]);
      assert pieces == [pieces[0]] + pieces[1..];
    }
  }

  /** When PyMuPDF's text blocks are clean (not blank, not padded with
      whitespace, no blank line inside), the paragraphs of an extracted PDF
      page are exactly its text blocks, in block order. */
  lemma PdfParagraphsAreTextBlocks(blocks: seq<Block>)
    requires forall k :: 0 <= k < |TextBlocks(blocks)| ==> CleanBlockText(TextBlocks(blocks)[k])
    ensures Paragraphs(PageText(blocks)) == TextBlocks(blocks)
  {
    var ts := TextBlocks(blocks);
    if ts == [] {
      assert PageText(blocks) == [];
      assert Split([], ParagraphSeparator) == [[]];
      assert Strip([]) == [];
    } else {
      SplitPageText(blocks);
      CleanPiecesKept(ts);
    }
  }

  // ---------------------------------------------------------------------
  // Metadata

  /** The citation string `f"{doc_id}_page_{page_num}"`. */
  function SourceOf(docId: string, page: int): (r: string)
    ensures |r| == |docId| + 6 + |DecimalString(page)|
    ensures r[..|docId|] == docId && r[|docId|..|docId| + 6] == "_page_"
    ensures r[|docId| + 6..] == DecimalString(page)
  {
    docId + "_page_" + DecimalString(page)
  }

  /** Within one document, the citation string tells the pages apart. */
  lemma SourceDistinguishesPages(docId: string, a: int, b: int)
    requires SourceOf(docId, a) == SourceOf(docId, b)
    ensures a == b
  {
    var n := |docId + "_page_"|;
    assert SourceOf(docId, a)[n..] == DecimalString(a);
    assert SourceOf(docId, b)[n..] == DecimalString(b);
    DecimalStringInjective(a, b);
  }

  // ---------------------------------------------------------------------
  // The records, page by page and paragraph by paragraph

  /** A page as the assembly loop sees it: its number, its citation string
      and its paragraphs. */
  datatype ParagraphedPage = ParagraphedPage(number: int, source: string, paragraphs: seq<string>)

  /** Cuts every page into paragraphs, keeping page order and numbers, and
      names each page by its citation string. */
  function Paragraphed(pages: seq<Page>, docId: string): (r: seq<ParagraphedPage>)
    ensures |r| == |pages|
  {
    seq(|pages|, i requires 0 <= i < |pages| =>
      ParagraphedPage(pages[i].number, SourceOf(docId, pages[i].number), Paragraphs(pages[i].text)))
  }

  /** The records of one paragraph: one per splitter piece, chunk index 0, 1, ... */
  function ParagraphRecords(docId: string, page: int, source: string, paragraph: nat, pieces: seq<string>): (r: seq<Record>)
    ensures |r| == |pieces|
  {
    seq(|pieces|, j requires 0 <= j < |pieces| =>
      Record(pieces[j], Metadata(docId, page, paragraph, j, source)))
  }

  /** The records of the first `n` paragraphs of a page. */
  function PageRecordsUpTo(docId: string, page: int, source: string, paras: seq<string>, split: Splitter, n: nat): seq<Record>
    requires n <= |paras|
  {
    if n == 0 then []
    else PageRecordsUpTo(docId, page, source, paras, split, n - 1)
         + ParagraphRecords(docId, page, source, n - 1, SmartChunk(split, paras[n - 1]))
  }

  /** The records of one page. */
  function PageRecords(docId: string, page: ParagraphedPage, split: Splitter): seq<Record> {
    PageRecordsUpTo(docId, page.number, page.source, page.paragraphs, split, |page.paragraphs|)
  }

  /** The records of a run of pages, page after page. */
  function Records(parts: seq<ParagraphedPage>, docId: string, split: Splitter): seq<Record> {
    if parts == [] then []
    else Records(parts[..|parts| - 1], docId, split) + PageRecords(docId, parts[|parts| - 1], split)
  }

  /** The records of a run end with those of its last page. */
  lemma RecordsSnoc(parts: seq<ParagraphedPage>, docId: string, split: Splitter)
    requires parts != []
    ensures Records(parts, docId, split)
            == Records(parts[..|parts| - 1], docId, split) + PageRecords(docId, parts[|parts| - 1], split)
  {
  }

  /** The records of a whole document, before identifiers are drawn. */
  function DocRecords(pages: seq<Page>, docId: string, split: Splitter): seq<Record> {
    Records(Paragraphed(pages, docId), docId, split)
  }

  /** Gives the k-th record the k-th identifier drawn. */
  function Stamp(records: seq<Record>, uuid: nat -> string): (r: seq<Chunk>)
    ensures |r| == |records|
  {
    seq(|records|, k requires 0 <= k < |records| =>
      Chunk(uuid(k), records[k].text, records[k].metadata))
  }

  /** Stamping one more record of a run adds one chunk, with the next identifier. */
  lemma StampStep(done: seq<Record>, mine: seq<Record>, j: nat, uuid: nat -> string)
    requires j < |mine|
    ensures Stamp(done + mine[..j + 1], uuid) ==
            Stamp(done + mine[..j], uuid) + [Chunk(uuid(|done| + j), mine[j].text, mine[j].metadata)]
  {
    assert done + mine[..j + 1] == (done + mine[..j]) + [mine[j]];
  }

  /** The innermost loop of `chunk_with_metadata`: one chunk per splitter
      piece of paragraph `p`, each with a fresh identifier. */
  method AppendParagraphChunks(chunks: seq<Chunk>, ghost done: seq<Record>, docId: string, pageNum: int,
                               source: string, p: nat, paraChunks: seq<string>, uuid: nat -> string)
    returns (out: seq<Chunk>)
    requires chunks == Stamp(done, uuid)
    ensures out == Stamp(done + ParagraphRecords(docId, pageNum, source, p, paraChunks), uuid)
  {
    ghost var mine := ParagraphRecords(docId, pageNum, source, p, paraChunks);
    TakeNoneAll(mine);
    EmptyConcat(done);
    out := chunks;
    for j := 0 to |paraChunks|
      invariant out == Stamp(done + mine[..j], uuid)
    {
      var chunkId := uuid(|out|);
      var chunk := Chunk(chunkId, paraChunks[j], Metadata(docId, pageNum, p, j, source));
      StampStep(done, mine, j, uuid);
      out := out + [chunk];
    }
  }

  /** The paragraph loop of `chunk_with_metadata` for one page: the chunks of
      every paragraph of the page, paragraph after paragraph. */
  method AppendPageChunks(chunks: seq<Chunk>, ghost done: seq<Record>, docId: string, pageNum: int,
                          source: string, paragraphs: seq<string>, split: Splitter, uuid: nat -> string)
    returns (out: seq<Chunk>)
    requires chunks == Stamp(done, uuid)
    ensures out == Stamp(done + PageRecords(docId, ParagraphedPage(pageNum, source, paragraphs), split), uuid)
  {
    out := chunks;
    for p := 0 to |paragraphs|
      invariant out == Stamp(done + PageRecordsUpTo(docId, pageNum, source, paragraphs, split, p), uuid)
    {
      var paraChunks := SmartChunk(split, paragraphs[p]);
      out := AppendParagraphChunks(out, done + PageRecordsUpTo(docId, pageNum, source, paragraphs, split, p),
                                   docId, pageNum, source, p, paraChunks, uuid);
      assert done + PageRecordsUpTo(docId, pageNum, source, paragraphs, split, p + 1)
          == (done + PageRecordsUpTo(docId, pageNum, source, paragraphs, split, p))
             + ParagraphRecords(docId, pageNum, source, p, paraChunks);
    }
  }

  /** `chunk_with_metadata(texts, doc_id)`. The `k`-th call of the random
      identifier generator is `uuid(k)`. The citation string depends on the
      page only, so it is formatted once per page rather than once per chunk. */
  method ChunkWithMetadata(texts: seq<Page>, docId: string, split: Splitter, uuid: nat -> string)
    returns (chunks: seq<Chunk>)
    ensures chunks == Stamp(DocRecords(texts, docId, split), uuid)
    ensures (forall a: nat, b: nat :: uuid(a) == uuid(b) ==> a == b) ==>
            forall k, l :: 0 <= k < l < |chunks| ==> chunks[k].id != chunks[l].id
  {
    ghost var parts := Paragraphed(texts, docId);
    chunks := [];
    for i := 0 to |texts|
      invariant chunks == Stamp(Records(parts[..i], docId, split), uuid)
    {
      var pageNum := texts[i].number;
      var source := SourceOf(docId, pageNum);
      var paragraphs := Paragraphs(texts[i].text);
      chunks := AppendPageChunks(chunks, Records(parts[..i], docId, split), docId, pageNum, source, paragraphs, split, uuid);
      assert parts[i] == ParagraphedPage(pageNum, source, paragraphs);
      assert parts[..i + 1][..i] == parts[..i];
    }
    assert parts[..|texts|] == parts;
  }

  // ---------------------------------------------------------------------
  // Count

  function Sum(xs: seq<nat>): nat {
    if xs == [] then 0 else Sum(xs[..|xs| - 1]) + xs[|xs| - 1]
  }

  /** The number of splitter pieces over all paragraphs of a page. */
  function PagePieceCount(page: ParagraphedPage, split: Splitter): nat {
    var paras := page.paragraphs;
    Sum(seq(|paras|, p requires 0 <= p < |paras| => |SmartChunk(split, paras[p])|))
  }

  /** The number of splitter pieces over all paragraphs of all pages. */
  function PieceCount(parts: seq<ParagraphedPage>, split: Splitter): nat {
    Sum(seq(|parts|, i requires 0 <= i < |parts| => PagePieceCount(parts[i], split)))
  }

  lemma {:induction false} PageRecordsCount(docId: string, page: int, source: string, paras: seq<string>, split: Splitter, n: nat)
    requires n <= |paras|
    ensures |PageRecordsUpTo(docId, page, source, paras, split, n)| ==
            Sum(seq(n, p requires 0 <= p < n => |SmartChunk(split, paras[p])|))
  {
    if n > 0 {
      PageRecordsCount(docId, page, source, paras, split, n - 1);
      var xs := seq(n, p requires 0 <= p < n => |SmartChunk(split, paras[p])|);
      assert xs[..n - 1] == seq(n - 1, p requires 0 <= p < n - 1 => |SmartChunk(split, paras[p])|);
    }
  }

  /** One record per splitter piece: the number of records is the total number
      of pieces over all paragraphs of all pages. */
  lemma {:induction false} RecordCount(parts: seq<ParagraphedPage>, docId: string, split: Splitter)
    ensures |Records(parts, docId, split)| == PieceCount(parts, split)
    decreases |parts|
  {
    if parts != [] {
      var n := |parts|;
      var init := parts[..n - 1];
      RecordCount(init, docId, split);
      PageRecordsCount(docId, parts[n - 1].number, parts[n - 1].source, parts[n - 1].paragraphs, split, |parts[n - 1].paragraphs|);
      var xs := seq(n, i requires 0 <= i < n => PagePieceCount(parts[i], split));
      assert xs[..n - 1] == seq(n - 1, i requires 0 <= i < n - 1 => PagePieceCount(init[i], split));
    }
  }

  /** Records of a concatenation of page runs are the records of each run. */
  lemma {:induction false} RecordsAppend(a: seq<ParagraphedPage>, b: seq<ParagraphedPage>, docId: string, split: Splitter)
    ensures Records(a + b, docId, split) == Records(a, docId, split) + Records(b, docId, split)
    decreases |b|
  {
    if b == [] {
      EmptyConcat(a);
      EmptyConcat(Records(a, docId, split));
    } else {
      var n := |b|;
      SnocAppend(a, b);
      RecordsAppend(a, b[..n - 1], docId, split);
      ConcatAssoc(Records(a, docId, split), Records(b[..n - 1], docId, split), PageRecords(docId, b[n - 1], split));
    }
  }

  /** A page without records can be dropped from the run without changing it. */
  lemma RecordsSkipEmpty(parts: seq<ParagraphedPage>, docId: string, split: Splitter, i: int)
    requires 0 <= i < |parts| && PageRecords(docId, parts[i], split) == []
    ensures Records(parts, docId, split) == Records(parts[..i] + parts[i + 1..], docId, split)
  {
    var front, back := parts[..i], parts[i + 1..];
    var r := Records(front, docId, split);
    assert Records([parts[i]], docId, split) == [] by {
      assert [parts[i]][..0] == [];
    }
    assert Records(front + [parts[i]], docId, split) == r by {
      RecordsAppend(front, [parts[i]], docId, split);
      EmptyConcat(r);
    }
    AroundIndex(parts, i);
    RecordsAppend(front + [parts[i]], back, docId, split);
    RecordsAppend(front, back, docId, split);
  }

  /** Paragraphing commutes with removing a page. */
  lemma ParagraphedRemove(pages: seq<Page>, docId: string, i: int)
    requires 0 <= i < |pages|
    ensures Paragraphed(pages[..i] + pages[i + 1..], docId) == Paragraphed(pages, docId)[..i] + Paragraphed(pages, docId)[i + 1..]
  {
    var rest, all := pages[..i] + pages[i + 1..], Paragraphed(pages, docId);
    var lhs, rhs := Paragraphed(rest, docId), all[..i] + all[i + 1..];
    forall k | 0 <= k < |rest|
      ensures lhs[k] == rhs[k]
    {
      var m := if k < i then k else k + 1;
      assert rest[k] == pages[m] && rhs[k] == all[m];
    }
  }

  /** A page whose text is only whitespace contributes nothing: the records
      are those of the document without that page. */
  lemma BlankPageNoRecords(pages: seq<Page>, docId: string, split: Splitter, i: int)
    requires 0 <= i < |pages| && AllSpace(pages[i].text)
    ensures DocRecords(pages, docId, split) == DocRecords(pages[..i] + pages[i + 1..], docId, split)
  {
    var parts := Paragraphed(pages, docId);
    BlankTextNoParagraphs(pages[i].text);
    assert parts[i].paragraphs == [];
    RecordsSkipEmpty(parts, docId, split, i);
    ParagraphedRemove(pages, docId, i);
  }

  // ---------------------------------------------------------------------
  // Where each piece goes

  /** `(i, p, j)` names the `j`-th splitter piece of paragraph `p` of page `i`. */
  predicate IsPiece(parts: seq<ParagraphedPage>, split: Splitter, i: int, p: int, j: int) {
    && 0 <= i < |parts|
    && 0 <= p < |parts[i].paragraphs|
    && 0 <= j < |SmartChunk(split, parts[i].paragraphs[p])|
  }

  /** The record piece `(i, p, j)` must produce: the piece's text unchanged,
      the document's id, the page's number, the paragraph and chunk indices,
      and the citation string for that page. */
  function ExpectedRecord(parts: seq<ParagraphedPage>, docId: string, split: Splitter, i: int, p: int, j: int): Record
    requires IsPiece(parts, split, i, p, j)
  {
    var page := parts[i];
    Record(SmartChunk(split, page.paragraphs[p])[j],
           Metadata(docId, page.number, p, j, page.source))
  }

  /** Where piece `(i, p, j)` lands: after every record of the earlier pages
      and of the earlier paragraphs of its page, at offset `j`. */
  function Position(parts: seq<ParagraphedPage>, docId: string, split: Splitter, i: int, p: int, j: int): int
    requires IsPiece(parts, split, i, p, j)
  {
    |Records(parts[..i], docId, split)|
    + |PageRecordsUpTo(docId, parts[i].number, parts[i].source, parts[i].paragraphs, split, p)|
    + j
  }

  /** Piece `j` of paragraph `p < n` is record `|PageRecordsUpTo(p)| + j` of the first `n` paragraphs. */
  lemma {:induction false} PageRecordAt(docId: string, page: int, source: string, paras: seq<string>, split: Splitter, n: nat, p: nat, j: nat)
    requires n <= |paras| && p < n && j < |SmartChunk(split, paras[p])|
    ensures |PageRecordsUpTo(docId, page, source, paras, split, p)| + j < |PageRecordsUpTo(docId, page, source, paras, split, n)|
    ensures PageRecordsUpTo(docId, page, source, paras, split, n)[|PageRecordsUpTo(docId, page, source, paras, split, p)| + j]
            == ParagraphRecords(docId, page, source, p, SmartChunk(split, paras[p]))[j]
  {
    var before := PageRecordsUpTo(docId, page, source, paras, split, n - 1);
    var last := ParagraphRecords(docId, page, source, n - 1, SmartChunk(split, paras[n - 1]));
    var x := |PageRecordsUpTo(docId, page, source, paras, split, p)| + j;
    var e := ParagraphRecords(docId, page, source, p, SmartChunk(split, paras[p]))[j];
    if p < n - 1 {
      assert x < |before| && before[x] == e by {
        PageRecordAt(docId, page, source, paras, split, n - 1, p, j);
      }
    }
    IndexConcat(before, last, x);
  }

  /** Record `k` of the first `n` paragraphs is piece `j` of some paragraph `p < n`. */
  lemma {:induction false} PageRecordOrigin(docId: string, page: int, source: string, paras: seq<string>, split: Splitter, n: nat, k: int)
    requires n <= |paras|
    requires 0 <= k < |PageRecordsUpTo(docId, page, source, paras, split, n)|
    ensures exists p, j :: && 0 <= p < n && 0 <= j < |SmartChunk(split, paras[p])|
                           && k == |PageRecordsUpTo(docId, page, source, paras, split, p)| + j
                           && PageRecordsUpTo(docId, page, source, paras, split, n)[k]
                              == ParagraphRecords(docId, page, source, p, SmartChunk(split, paras[p]))[j]
  {
    var before := PageRecordsUpTo(docId, page, source, paras, split, n - 1);
    var last := ParagraphRecords(docId, page, source, n - 1, SmartChunk(split, paras[n - 1]));
    IndexConcat(before, last, k);
    if k < |before| {
      PageRecordOrigin(docId, page, source, paras, split, n - 1, k);
    } else {
      var p, j := n - 1, k - |before|;
      assert PageRecordsUpTo(docId, page, source, paras, split, n)[k] == last[j];
    }
  }

  /** Dropping the last page changes neither the pieces nor the positions of
      the pages before it. */
  lemma PositionInInit(parts: seq<ParagraphedPage>, docId: string, split: Splitter, i: int, p: int, j: int)
    requires IsPiece(parts, split, i, p, j) && i < |parts| - 1
    ensures IsPiece(parts[..|parts| - 1], split, i, p, j)
    ensures Position(parts[..|parts| - 1], docId, split, i, p, j) == Position(parts, docId, split, i, p, j)
    ensures ExpectedRecord(parts[..|parts| - 1], docId, split, i, p, j) == ExpectedRecord(parts, docId, split, i, p, j)
  {
    TakeTake(parts, |parts| - 1, i);
  }

  /** A piece of an earlier page keeps its record when a page is appended. */
  lemma RecordInEarlierPage(parts: seq<ParagraphedPage>, docId: string, split: Splitter, i: int, p: int, j: int)
    requires IsPiece(parts, split, i, p, j) && i < |parts| - 1
    requires Position(parts, docId, split, i, p, j) < |Records(parts[..|parts| - 1], docId, split)|
    requires Records(parts[..|parts| - 1], docId, split)[Position(parts, docId, split, i, p, j)]
             == ExpectedRecord(parts, docId, split, i, p, j)
    ensures Position(parts, docId, split, i, p, j) < |Records(parts, docId, split)|
    ensures Records(parts, docId, split)[Position(parts, docId, split, i, p, j)]
            == ExpectedRecord(parts, docId, split, i, p, j)
  {
    var n := |parts|;
    RecordsSnoc(parts, docId, split);
    IndexConcat(Records(parts[..n - 1], docId, split), PageRecords(docId, parts[n - 1], split),
                Position(parts, docId, split, i, p, j));
  }

  /** A piece of the last page lands after every record of the earlier pages. */
  lemma RecordInLastPage(parts: seq<ParagraphedPage>, docId: string, split: Splitter, p: int, j: int)
    requires parts != [] && IsPiece(parts, split, |parts| - 1, p, j)
    ensures Position(parts, docId, split, |parts| - 1, p, j) < |Records(parts, docId, split)|
    ensures Records(parts, docId, split)[Position(parts, docId, split, |parts| - 1, p, j)]
            == ExpectedRecord(parts, docId, split, |parts| - 1, p, j)
  {
    var n := |parts|;
    var page := parts[n - 1];
    var before := Records(parts[..n - 1], docId, split);
    var mine := PageRecords(docId, page, split);
    var k := |PageRecordsUpTo(docId, page.number, page.source, page.paragraphs, split, p)| + j;
    assert k < |mine| && mine[k] == ExpectedRecord(parts, docId, split, n - 1, p, j) by {
      PageRecordAt(docId, page.number, page.source, page.paragraphs, split, |page.paragraphs|, p, j);
    }
    RecordsSnoc(parts, docId, split);
    IndexConcat(before, mine, |before| + k);
  }

  /** Every piece lands where `Position` says, as the record `ExpectedRecord`
      describes: its text unchanged, its metadata filled in from where it came from. */
  lemma {:induction false} RecordAt(parts: seq<ParagraphedPage>, docId: string, split: Splitter, i: int, p: int, j: int)
    requires IsPiece(parts, split, i, p, j)
    ensures Position(parts, docId, split, i, p, j) < |Records(parts, docId, split)|
    ensures Records(parts, docId, split)[Position(parts, docId, split, i, p, j)]
            == ExpectedRecord(parts, docId, split, i, p, j)
    decreases |parts|
  {
    if i < |parts| - 1 {
      PositionInInit(parts, docId, split, i, p, j);
      RecordAt(parts[..|parts| - 1], docId, split, i, p, j);
      RecordInEarlierPage(parts, docId, split, i, p, j);
    } else {
      RecordInLastPage(parts, docId, split, p, j);
    }
  }

  /** Conversely, every record is some piece, at that piece's position: the
      records are the splitter pieces in page, paragraph, piece order and
      nothing else. */
  lemma {:induction false} RecordOrigin(parts: seq<ParagraphedPage>, docId: string, split: Splitter, k: int)
    requires 0 <= k < |Records(parts, docId, split)|
    ensures exists i, p, j :: && IsPiece(parts, split, i, p, j)
                              && k == Position(parts, docId, split, i, p, j)
                              && Records(parts, docId, split)[k] == ExpectedRecord(parts, docId, split, i, p, j)
    decreases |parts|
  {
    var n := |parts|;
    var init := parts[..n - 1];
    var before := Records(init, docId, split);
    var last := PageRecords(docId, parts[n - 1], split);
    var all := Records(parts, docId, split);
    RecordsSnoc(parts, docId, split);
    IndexConcat(before, last, k);
    if k < |before| {
      RecordOrigin(init, docId, split, k);
      var i, p, j :| && IsPiece(init, split, i, p, j)
                     && k == Position(init, docId, split, i, p, j)
                     && before[k] == ExpectedRecord(init, docId, split, i, p, j);
      assert IsPiece(parts, split, i, p, j) && k == Position(parts, docId, split, i, p, j)
             && all[k] == ExpectedRecord(parts, docId, split, i, p, j) by {
        assert IsPiece(parts, split, i, p, j);
        PositionInInit(parts, docId, split, i, p, j);
      }
    } else {
      var k' := k - |before|;
      var page := parts[n - 1];
      PageRecordOrigin(docId, page.number, page.source, page.paragraphs, split, |page.paragraphs|, k');
      var p, j :| && 0 <= p < |page.paragraphs| && 0 <= j < |SmartChunk(split, page.paragraphs[p])|
                  && k' == |PageRecordsUpTo(docId, page.number, page.source, page.paragraphs, split, p)| + j
                  && last[k'] == ParagraphRecords(docId, page.number, page.source, p, SmartChunk(split, page.paragraphs[p]))[j];
      assert IsPiece(parts, split, n - 1, p, j) && k == Position(parts, docId, split, n - 1, p, j)
             && all[k] == ExpectedRecord(parts, docId, split, n - 1, p, j);
    }
  }

  /** Every record of a document names that document, the number of one of
      its pages and that page's citation string, and its text is the splitter
      piece its paragraph and chunk indices point to in that page. */
  lemma RecordProvenance(pages: seq<Page>, docId: string, split: Splitter, k: int)
    requires 0 <= k < |DocRecords(pages, docId, split)|
    ensures var r := DocRecords(pages, docId, split)[k];
      && r.metadata.docId == docId
      && r.metadata.source == SourceOf(docId, r.metadata.page)
      && exists i :: && 0 <= i < |pages| && pages[i].number == r.metadata.page
                     && r.metadata.paragraph < |Paragraphs(pages[i].text)|
                     && var pieces := SmartChunk(split, Paragraphs(pages[i].text)[r.metadata.paragraph]);
                        r.metadata.chunkIndex < |pieces| && r.text == pieces[r.metadata.chunkIndex]
  {
    var parts := Paragraphed(pages, docId);
    RecordOrigin(parts, docId, split, k);
    var i, p, j :| && IsPiece(parts, split, i, p, j)
                   && k == Position(parts, docId, split, i, p, j)
                   && Records(parts, docId, split)[k] == ExpectedRecord(parts, docId, split, i, p, j);
    assert parts[i] == ParagraphedPage(pages[i].number, SourceOf(docId, pages[i].number), Paragraphs(pages[i].text));
  }

  /** Chunk indices within a paragraph run 0, 1, 2, ... without gaps: the
      record of piece `j > 0` directly follows the record of piece `j - 1` of
      the same page and paragraph. */
  lemma ChunkIndicesContiguous(parts: seq<ParagraphedPage>, docId: string, split: Splitter, i: int, p: int, j: int)
    requires IsPiece(parts, split, i, p, j) && j > 0
    ensures IsPiece(parts, split, i, p, j - 1)
    ensures 0 < Position(parts, docId, split, i, p, j) < |Records(parts, docId, split)|
    ensures Position(parts, docId, split, i, p, j - 1) == Position(parts, docId, split, i, p, j) - 1
    ensures Records(parts, docId, split)[Position(parts, docId, split, i, p, j) - 1]
            == ExpectedRecord(parts, docId, split, i, p, j - 1)
  {
    RecordAt(parts, docId, split, i, p, j);
    RecordAt(parts, docId, split, i, p, j - 1);
  }

  // ---------------------------------------------------------------------
  // Order

  /** The provenance order: by page number, then paragraph, then chunk index. */
  predicate Precedes(a: Metadata, b: Metadata) {
    || a.page < b.page
    || (a.page == b.page && a.paragraph < b.paragraph)
    || (a.page == b.page && a.paragraph == b.paragraph && a.chunkIndex < b.chunkIndex)
  }

  predicate InProvenanceOrder(rs: seq<Record>) {
    forall k, l :: 0 <= k < l < |rs| ==> Precedes(rs[k].metadata, rs[l].metadata)
  }

  lemma OrderedConcat(a: seq<Record>, b: seq<Record>)
    requires InProvenanceOrder(a) && InProvenanceOrder(b)
    requires forall k, l :: 0 <= k < |a| && 0 <= l < |b| ==> Precedes(a[k].metadata, b[l].metadata)
    ensures InProvenanceOrder(a + b)
  {
    var ab := a + b;
    forall k, l | 0 <= k < l < |ab|
      ensures Precedes(ab[k].metadata, ab[l].metadata)
    {
      if l < |a| {
        assert ab[k] == a[k] && ab[l] == a[l];
      } else if k < |a| {
        assert ab[k] == a[k] && ab[l] == b[l - |a|];
      } else {
        assert ab[k] == b[k - |a|] && ab[l] == b[l - |a|];
      }
    }
  }

  lemma {:induction false} PageRecordsOrdered(docId: string, page: int, source: string, paras: seq<string>, split: Splitter, n: nat)
    requires n <= |paras|
    ensures InProvenanceOrder(PageRecordsUpTo(docId, page, source, paras, split, n))
    ensures forall k :: 0 <= k < |PageRecordsUpTo(docId, page, source, paras, split, n)| ==>
              PageRecordsUpTo(docId, page, source, paras, split, n)[k].metadata.page == page
  {
    if n > 0 {
      PageRecordsOrdered(docId, page, source, paras, split, n - 1);
      var before := PageRecordsUpTo(docId, page, source, paras, split, n - 1);
      var last := ParagraphRecords(docId, page, source, n - 1, SmartChunk(split, paras[n - 1]));
      forall k | 0 <= k < |before|
        ensures before[k].metadata.paragraph < n - 1
      {
        PageRecordOrigin(docId, page, source, paras, split, n - 1, k);
      }
      OrderedConcat(before, last);
      assert PageRecordsUpTo(docId, page, source, paras, split, n) == before + last;
    }
  }

  /** Page numbers that strictly increase along the list of paragraphed pages. */
  predicate PagesIncreasing(parts: seq<ParagraphedPage>) {
    forall i, j :: 0 <= i < j < |parts| ==> parts[i].number < parts[j].number
  }

  /** When page numbers strictly increase (as PDF extraction guarantees), the
      records come out strictly ordered by page, paragraph and chunk index, so
      no two records share that triple. */
  lemma {:induction false} RecordsOrdered(parts: seq<ParagraphedPage>, docId: string, split: Splitter)
    requires PagesIncreasing(parts)
    ensures InProvenanceOrder(Records(parts, docId, split))
    decreases |parts|
  {
    if parts != [] {
      var n := |parts|;
      var init := parts[..n - 1];
      var before := Records(init, docId, split);
      var last := PageRecords(docId, parts[n - 1], split);
      RecordsOrdered(init, docId, split);
      PageRecordsOrdered(docId, parts[n - 1].number, parts[n - 1].source, parts[n - 1].paragraphs, split, |parts[n - 1].paragraphs|);
      forall k | 0 <= k < |before|
        ensures before[k].metadata.page < parts[n - 1].number
      {
        RecordOrigin(init, docId, split, k);
      }
      OrderedConcat(before, last);
    }
  }

  /** The paragraphed pages of a document keep its page numbers. */
  lemma ParagraphedKeepsNumbers(pages: seq<Page>, docId: string)
    requires StrictlyIncreasing(pages)
    ensures PagesIncreasing(Paragraphed(pages, docId))
  {
  }
}

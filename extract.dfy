/** Text extraction: turning a staged file into an ordered list of pages
    (`extract_text_from_pdf`, `extract_text_from_txt`, `extract_text_from_image`).
    What PyMuPDF, the UTF-8 reader and Tesseract return is an input here. */
module Extract {
  import opened PyText

  /** One entry of PyMuPDF's `page.get_text("blocks")`: the block's text
      (tuple slot 4) and its block type (tuple slot 6; 0 is text, 1 is image). */
  datatype Block = Block(text: string, blockType: int)

  /** A page as the pipeline passes it on: `{"page": number, "text": text}`. */
  datatype Page = Page(number: int, text: string)

  const TextBlockType: int := 0

  /** Separator placed between the text blocks of one PDF page. */
  const BlockSeparator: string := "\n\n"

  /** The texts of the blocks whose type is text, in block order. */
  function TextBlocks(blocks: seq<Block>): (r: seq<string>)
    ensures |r| <= |blocks|
  {
    if blocks == [] then []
    else (if blocks[0].blockType == TextBlockType then [blocks[0].text] else [])
         + TextBlocks(blocks[1..])
  }

  /** Filtering the blocks of a concatenation filters each part in turn, so the
      order of the kept blocks is the order of the page. */
  lemma {:induction false} TextBlocksAppend(a: seq<Block>, b: seq<Block>)
    ensures TextBlocks(a + b) == TextBlocks(a) + TextBlocks(b)
    decreases |a|
  {
    if a == [] {
      EmptyConcat(b);
    } else {
      var head := if a[0].blockType == TextBlockType then [a[0].text] else [];
      ConsAppend(a, b);
      TextBlocksAppend(a[1..], b);
      ConcatAssoc(head, TextBlocks(a[1..]), TextBlocks(b));
    }
  }

  /** A text is kept exactly when some text-type block carries it. */
  lemma {:induction false} TextBlocksMembers(blocks: seq<Block>, t: string)
    ensures t in TextBlocks(blocks) <==>
            exists k :: 0 <= k < |blocks| && blocks[k] == Block(t, TextBlockType)
    decreases |blocks|
  {
    if blocks != [] {
      TextBlocksMembers(blocks[1..], t);
      if t in TextBlocks(blocks[1..]) {
        var k :| 0 <= k < |blocks[1..]| && blocks[1..][k] == Block(t, TextBlockType);
        assert blocks[k + 1] == Block(t, TextBlockType);
      }
      if k :| 0 <= k < |blocks| && blocks[k] == Block(t, TextBlockType) {
        if k > 0 {
          assert blocks[1..][k - 1] == Block(t, TextBlockType);
        }
      }
    }
  }

  /** The text of one PDF page: its text blocks joined by a blank line. */
  function PageText(blocks: seq<Block>): string {
    Join(TextBlocks(blocks), BlockSeparator)
  }

  /** The pages a PDF yields: one per PDF page, numbered from 1 in page order. */
  function PdfPages(doc: seq<seq<Block>>): (r: seq<Page>)
    ensures |r| == |doc|
  {
    seq(|doc|, i requires 0 <= i < |doc| => Page(i + 1, PageText(doc[i])))
  }

  /** Page numbers that run 1, 2, ..., n. */
  predicate NumberedFromOne(pages: seq<Page>) {
    forall i :: 0 <= i < |pages| ==> pages[i].number == i + 1
  }

  /** Page numbers that strictly increase along the list. */
  predicate StrictlyIncreasing(pages: seq<Page>) {
    forall i, j :: 0 <= i < j < |pages| ==> pages[i].number < pages[j].number
  }

  /** `extract_text_from_pdf`, given what PyMuPDF reports for each page of the
      document: walks the pages in order and appends one page record per PDF page. */
  method ExtractTextFromPdf(doc: seq<seq<Block>>) returns (pages: seq<Page>)
    ensures pages == PdfPages(doc)
    ensures NumberedFromOne(pages) && StrictlyIncreasing(pages)
  {
    pages := [];
    var i := 0;
    while i < |doc|
      invariant 0 <= i <= |doc|
      invariant |pages| == i
      invariant forall k :: 0 <= k < i ==> pages[k] == Page(k + 1, PageText(doc[k]))
    {
      var formatted := Join(TextBlocks(doc[i]), BlockSeparator);
      pages := pages + [Page(i + 1, formatted)];
      i := i + 1;
    }
  }

  /** `extract_text_from_txt`, given the file's decoded contents: a single page
      numbered 1 holding the whole text. */
  function ExtractTextFromTxt(contents: string): (r: seq<Page>)
    ensures |r| == 1 && r[0].number == 1 && r[0].text == contents
  {
    [Page(1, contents)]
  }

  /** `extract_text_from_image`, given Tesseract's output for the image: a single
      page numbered 1 holding all recognised text. */
  function ExtractTextFromImage(ocrText: string): (r: seq<Page>)
    ensures |r| == 1 && r[0].number == 1 && r[0].text == ocrText
  {
    [Page(1, ocrText)]
  }

  /** A text block that the paragraph splitter will read back unchanged: not
      blank, no surrounding whitespace, no blank-line separator inside. */
  predicate CleanBlockText(t: string) {
    t != [] && IsStripped(t) && !Contains(t, BlockSeparator)
  }

  /** A clean block ends before the separator that joins it to the next one. */
  lemma CleanEndsBefore(t: string)
    requires CleanBlockText(t)
    ensures EndsBefore(t, BlockSeparator)
  {
    forall j | 0 <= j < |t|
      ensures !OccursAt(t + BlockSeparator, BlockSeparator, j)
    {
      if j + 2 <= |t| {
        assert (t + BlockSeparator)[j..j + 2] == t[j..j + 2];
        assert !OccursAt(t, BlockSeparator, j);
      } else {
        assert (t + BlockSeparator)[j] == t[|t| - 1];
      }
    }
  }

  /** Splitting a PDF page's text at blank lines gives back its clean text
      blocks, one piece per block. */
  lemma SplitPageText(blocks: seq<Block>)
    requires TextBlocks(blocks) != []
    requires forall k :: 0 <= k < |TextBlocks(blocks)| ==> CleanBlockText(TextBlocks(blocks)[k])
    ensures Split(PageText(blocks), BlockSeparator) == TextBlocks(blocks)
  {
    var ts := TextBlocks(blocks);
    forall k | 0 <= k < |ts| - 1
      ensures EndsBefore(ts[k], BlockSeparator)
    {
      CleanEndsBefore(ts[k]);
    }
    SplitJoin(ts, BlockSeparator);
  }
}

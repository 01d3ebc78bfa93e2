/** The block-level PDF text extractor: each page's text blocks that are
    long enough are stripped and joined with blank lines, and the page's
    printed number is guessed from the first and the last five lines of that
    text. PyMuPDF itself is not modelled: a document is given as the blocks
    of each of its pages, already in reading order. */
module ExtractionService {
  import opened Wrappers
  import opened Text
  import Pagination

  /** Blocks whose stripped text is this long or shorter are noise. */
  const MinBlockChars: nat := 10

  /** Lines inspected at each end of a page for its printed number. */
  const PaginationWindow: nat := 5

  /** The type PyMuPDF gives a block of text (images are type 1). */
  const TextBlockType: int := 0

  /** What separates the blocks of a page's text. */
  const BlockSeparator: string := "\n\n"

  /** One entry of `page.get_text("blocks")`: its text and its block type.
      The coordinates only order the blocks and are not modelled. */
  datatype Block = Block(text: string, blockType: int)

  /** One element of the list `_process_pdf_blocks` returns. */
  datatype ExtractedPage = ExtractedPage(pageIndex: nat, text: string, internalPageNumber: string)

  /** The filter of `_process_pdf_blocks`: a text block whose stripped text
      is longer than the threshold. */
  predicate Kept(b: Block) {
    b.blockType == TextBlockType && |Strip(b.text)| > MinBlockChars
  }

  /** The blocks the filter keeps, in their order. */
  function TextBlocks(blocks: seq<Block>): (kept: seq<Block>)
    ensures |kept| <= |blocks|
    ensures forall k :: 0 <= k < |kept| ==> Kept(kept[k])
  {
    if blocks == [] then []
    else
      var init := blocks[..|blocks| - 1];
      var last := blocks[|blocks| - 1];
      if Kept(last) then TextBlocks(init) + [last] else TextBlocks(init)
  }

  /** The filter keeps exactly the listed blocks that pass it. */
  lemma {:induction false} TextBlocksMembers(blocks: seq<Block>)
    ensures forall b :: b in TextBlocks(blocks) <==> b in blocks && Kept(b)
    decreases |blocks|
  {
    if blocks != [] {
      var init := blocks[..|blocks| - 1];
      var last := blocks[|blocks| - 1];
      assert blocks == init + [last];
      TextBlocksMembers(init);
    }
  }

  /** Filtering a concatenation filters each side: with `TextBlocksSingle`
      this determines the filter completely. */
  lemma {:induction false} TextBlocksAppend(a: seq<Block>, b: seq<Block>)
    ensures TextBlocks(a + b) == TextBlocks(a) + TextBlocks(b)
    decreases |b|
  {
    if b == [] {
      assert a + b == a;
    } else {
      var init := b[..|b| - 1];
      var last := b[|b| - 1];
      assert a + b == (a + init) + [last];
      assert b == init + [last];
      var t := if Kept(last) then [last] else [];
      calc {
        TextBlocks(a + b);
        { TextBlocksSnoc(a + init, last); }
        TextBlocks(a + init) + t;
        { TextBlocksAppend(a, init); }
        (TextBlocks(a) + TextBlocks(init)) + t;
        TextBlocks(a) + (TextBlocks(init) + t);
        { TextBlocksSnoc(init, last); }
        TextBlocks(a) + TextBlocks(b);
      }
    }
  }

  lemma {:induction false} TextBlocksSnoc(init: seq<Block>, last: Block)
    ensures TextBlocks(init + [last]) == TextBlocks(init) + (if Kept(last) then [last] else [])
  {
    var bs := init + [last];
    assert bs[..|bs| - 1] == init && bs[|bs| - 1] == last;
  }

  /** A single block is kept exactly when it is a long enough text block. */
  lemma {:induction false} TextBlocksSingle(b: Block)
    ensures TextBlocks([b]) == (if Kept(b) then [b] else [])
  {
    assert [b][..0] == [];
  }

  /** The stripped text of each kept block. */
  function BlockTexts(kept: seq<Block>): (ts: seq<string>)
    requires forall k :: 0 <= k < |kept| ==> Kept(kept[k])
    ensures |ts| == |kept|
    ensures forall k :: 0 <= k < |ts| ==> IsStripped(ts[k]) && |ts[k]| > MinBlockChars
  {
    seq(|kept|, k requires 0 <= k < |kept| => BlockText(kept[k]))
  }

  /** `b[4].strip()` of a kept block. */
  function BlockText(b: Block): (t: string)
    requires Kept(b)
    ensures IsStripped(t) && |t| > MinBlockChars
  {
    Strip(b.text)
  }

  /** `"\n\n".join([b[4].strip() for b in text_blocks])`. */
  function PageText(blocks: seq<Block>): string {
    Join(BlockTexts(TextBlocks(blocks)), BlockSeparator)
  }

  lemma {:induction false} JoinNonEmpty(ts: seq<string>, sep: string)
    requires ts != [] && ts[0] != []
    ensures |Join(ts, sep)| >= |ts[0]|
  {
  }

  /** A page's text is empty exactly when none of its blocks is kept. */
  lemma {:induction false} PageTextEmpty(blocks: seq<Block>)
    ensures PageText(blocks) == [] <==> forall b :: b in blocks ==> !Kept(b)
  {
    var kept := TextBlocks(blocks);
    var ts := BlockTexts(kept);
    TextBlocksMembers(blocks);
    assert PageText(blocks) == Join(ts, BlockSeparator);
    if kept == [] {
      assert ts == [];
      forall b | b in blocks ensures !Kept(b) {
        assert b !in kept;
      }
    } else {
      var b0 := kept[0];
      assert b0 in blocks && Kept(b0);
      assert ts[0] != [];
      JoinNonEmpty(ts, BlockSeparator);
      assert PageText(blocks) != [];
    }
  }

  /** When no kept block contains a blank line of its own, splitting the
      page's text at blank lines gives back the kept blocks' stripped texts,
      in order. */
  lemma {:induction false} PageTextSplits(blocks: seq<Block>)
    requires forall b :: b in blocks && Kept(b) ==> !Occurs(BlockSeparator, Strip(b.text))
    requires exists b :: b in blocks && Kept(b)
    ensures SplitOn(PageText(blocks), BlockSeparator) == BlockTexts(TextBlocks(blocks))
  {
    var kept := TextBlocks(blocks);
    var ts := BlockTexts(kept);
    var b :| b in blocks && Kept(b);
    TextBlocksMembers(blocks);
    assert b in kept;
    SeparatorIsSpace();
    forall k | 0 <= k < |ts| ensures ts[k] != [] && IsStripped(ts[k]) && !Occurs(BlockSeparator, ts[k]) {
      KeptTextClean(blocks, k);
    }
    SplitJoinStripped(ts, BlockSeparator);
  }

  lemma {:induction false} SeparatorIsSpace()
    ensures AllSpace(BlockSeparator)
  {
    forall i | 0 <= i < |BlockSeparator| ensures IsSpace(BlockSeparator[i]) {
      assert BlockSeparator[i] == '\n';
    }
  }

  lemma {:induction false} KeptTextClean(blocks: seq<Block>, k: nat)
    requires forall b :: b in blocks && Kept(b) ==> !Occurs(BlockSeparator, Strip(b.text))
    requires k < |TextBlocks(blocks)|
    ensures var t := BlockTexts(TextBlocks(blocks))[k];
      t != [] && IsStripped(t) && !Occurs(BlockSeparator, t)
  {
    var kept := TextBlocks(blocks);
    TextBlocksMembers(blocks);
    assert kept[k] in kept;
    assert BlockTexts(kept)[k] == BlockText(kept[k]) == Strip(kept[k].text);
  }

  /** `_guess_internal_pagination`: the first page-number line among the
      first five and then the last five lines of the page's text. */
  function GuessInternalPagination(pageText: string): (r: string)
    ensures r == Pagination.Unknown || (r != [] && AllDigits(r))
  {
    Pagination.GuessInternalPageNumber(pageText, PaginationWindow)
  }

  /** The entry for the page at `index` with the given blocks. */
  function PageRecord(index: nat, blocks: seq<Block>): ExtractedPage {
    var text := PageText(blocks);
    ExtractedPage(index, text, GuessInternalPagination(text))
  }

  /** The list `_process_pdf_blocks` builds for a document's pages. */
  function ExtractedPages(pages: seq<seq<Block>>): (ps: seq<ExtractedPage>)
    ensures |ps| == |pages|
  {
    seq(|pages|, i requires 0 <= i < |pages| => PageRecord(i, pages[i]))
  }

  /** `_process_pdf_blocks`. `doc` is the blocks of every page, or `Raised`
      when opening or reading the document raises; the exception reaches the
      caller and no partial list survives it. */
  method ProcessPdfBlocks(doc: Attempt<seq<seq<Block>>>) returns (r: Attempt<seq<ExtractedPage>>)
    ensures r.Raised? <==> doc.Raised?
    ensures r.Returned? ==> |r.value| == |doc.value|
    ensures r.Returned? ==> forall i :: 0 <= i < |r.value| ==>
      && r.value[i].pageIndex == i
      && r.value[i].text == PageText(doc.value[i])
      && r.value[i].internalPageNumber == GuessInternalPagination(r.value[i].text)
    ensures r.Returned? ==> r.value == ExtractedPages(doc.value)
  {
    if doc.Raised? {
      return Raised;
    }
    var pages := doc.value;
    var extractedPages: seq<ExtractedPage> := [];
    for pageNum := 0 to |pages|
      invariant |extractedPages| == pageNum
      invariant forall i :: 0 <= i < pageNum ==> extractedPages[i] == PageRecord(i, pages[i])
    {
      var blocks := pages[pageNum];
      var textBlocks := TextBlocks(blocks);
      var pageText := Join(BlockTexts(textBlocks), BlockSeparator);
      var internalPage := GuessInternalPagination(pageText);
      var entry := ExtractedPage(pageNum, pageText, internalPage);
      assert entry == PageRecord(pageNum, blocks);
      extractedPages := extractedPages + [entry];
    }
    return Returned(extractedPages);
  }

  /** `extract_document`: a path that does not exist raises
      `FileNotFoundError` before the document is opened. */
  method ExtractDocument(fileExists: bool, doc: Attempt<seq<seq<Block>>>) returns (r: Attempt<seq<ExtractedPage>>)
    ensures !fileExists ==> r.Raised?
    ensures r.Returned? <==> fileExists && doc.Returned?
    ensures r.Returned? ==> |r.value| == |doc.value|
    ensures r.Returned? ==> forall i :: 0 <= i < |r.value| ==>
      && r.value[i].pageIndex == i
      && r.value[i].text == PageText(doc.value[i])
      && r.value[i].internalPageNumber == GuessInternalPagination(r.value[i].text)
    ensures r.Returned? ==> r.value == ExtractedPages(doc.value)
  {
    if !fileExists {
      return Raised;
    }
    r := ProcessPdfBlocks(doc);
  }
}

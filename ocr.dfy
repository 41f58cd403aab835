/**
  Page assembly around Google Cloud Vision OCR (ocr_google_vision.py).

  The Vision client is replaced by what its calls return: a text-detection
  response (an error message and the descriptions of the text annotations),
  a document-text-detection response (an error message and an optional full
  text annotation, itself pages of blocks of paragraphs of words of symbols),
  or the message of an exception the call raised. Rasterising the PDF and
  encoding each page image are left out, so a PDF is the sequence of the
  responses its pages would get.
*/
module VisionOcr {
  import opened Strings
  import opened Wrappers
  import Consolidation

  // ---------------------------------------------------------------------------
  // An abstract Vision API
  // ---------------------------------------------------------------------------

  datatype Symbol = Symbol(text: string)
  datatype Word = Word(symbols: seq<Symbol>)
  datatype Paragraph = Paragraph(words: seq<Word>)
  datatype Block = Block(paragraphs: seq<Paragraph>)
  datatype Page = Page(blocks: seq<Block>)

  /** `response.full_text_annotation`: the whole text and its structure. */
  datatype Document = Document(text: string, pages: seq<Page>)

  /** A message is true in Python once one of its fields is set: here, a text or a page. */
  predicate Annotated(d: Document)
  {
    d.text != [] || d.pages != []
  }

  /** A `text_detection` response: `error.message` and the annotations' descriptions. */
  datatype TextResponse = TextResponse(errorMessage: string, descriptions: seq<string>)

  /** A `document_text_detection` response; `None` stands for an annotation left unset. */
  datatype DocumentResponse = DocumentResponse(errorMessage: string, document: Option<Document>)

  /** The outcome of one API call: a response, or the message of the exception raised. */
  datatype Call<R> = Answered(response: R) | Raised(reason: string)

  /** The two calls a page image could be sent to; the mode picks one. */
  datatype PageCalls = PageCalls(standard: Call<TextResponse>, detailed: Call<DocumentResponse>)

  /** One entry of `text_info['blocks']`, without its confidence. */
  datatype BlockInfo = BlockInfo(text: string, wordCount: nat)

  /** The `text_info` dictionary, without its confidence. */
  datatype TextInfo = TextInfo(text: string, wordCount: nat, blocks: seq<BlockInfo>)

  /** What one page contributes: its text and its word count. */
  datatype PageResult = PageResult(text: string, wordCount: nat)

  /** A file written under the output directory. */
  datatype OutputFile = OutputFile(path: string, content: string)

  /** What `process_pdf` writes and counts when it succeeds. */
  datatype Extraction = Extraction(pageFiles: seq<OutputFile>, combined: OutputFile,
                                   totalWords: nat, apiCalls: nat)

  const NotInitialized: string := "ERROR: Vision API client not initialized"
  const NoTextFound: string := "No text found in image"
  const NoTextDetected: string := "No text detected"
  const PageError: string := "Error processing page"

  // ---------------------------------------------------------------------------
  // The detailed-mode aggregation, as functions of the document
  // ---------------------------------------------------------------------------

  function SymbolTexts(symbols: seq<Symbol>): seq<string>
  {
    seq(|symbols|, k requires 0 <= k < |symbols| => symbols[k].text)
  }

  /** `''.join([symbol.text for symbol in word.symbols])`. */
  function WordText(w: Word): string
  {
    Concat(SymbolTexts(w.symbols))
  }

  function WordTexts(words: seq<Word>): seq<string>
  {
    seq(|words|, k requires 0 <= k < |words| => WordText(words[k]))
  }

  /** The words of a block, paragraph after paragraph. */
  function BlockWords(paragraphs: seq<Paragraph>): (words: seq<Word>)
    ensures forall p, w :: p in paragraphs && w in p.words ==> w in words
  {
    if paragraphs == [] then []
    else
      var init := paragraphs[..|paragraphs| - 1];
      assert forall p :: p in paragraphs ==> p in init || p == paragraphs[|paragraphs| - 1];
      BlockWords(init) + paragraphs[|paragraphs| - 1].words
  }

  /** `block_text` once the loops are done: every word followed by one blank. */
  function RawText(words: seq<Word>): string
  {
    if words == [] then [] else RawText(words[..|words| - 1]) + (WordText(words[|words| - 1]) + " ")
  }

  /** The record a block adds to `text_info['blocks']`; blocks without words add none. */
  function BlockRecord(b: Block): (r: Option<BlockInfo>)
    ensures r.Some? <==> |BlockWords(b.paragraphs)| > 0
    ensures r.Some? ==> r.value.wordCount == |BlockWords(b.paragraphs)|
  {
    var words := BlockWords(b.paragraphs);
    if |words| > 0 then Some(BlockInfo(Strip(RawText(words)), |words|)) else None
  }

  function BlockRecordList(b: Block): seq<BlockInfo>
  {
    match BlockRecord(b)
    case Some(r) => [r]
    case None => []
  }

  /** The records of a page's blocks, in order. Every record counts at least one word. */
  function PageRecords(blocks: seq<Block>): (records: seq<BlockInfo>)
    ensures |records| <= |blocks|
    ensures forall r :: r in records ==> r.wordCount > 0
  {
    if blocks == [] then [] else PageRecords(blocks[..|blocks| - 1]) + BlockRecordList(blocks[|blocks| - 1])
  }

  function PageWordCount(blocks: seq<Block>): nat
  {
    if blocks == [] then 0
    else PageWordCount(blocks[..|blocks| - 1]) + |BlockWords(blocks[|blocks| - 1].paragraphs)|
  }

  /** The records of the whole document, page after page. */
  function DocumentRecords(pages: seq<Page>): (records: seq<BlockInfo>)
    ensures forall r :: r in records ==> r.wordCount > 0
  {
    if pages == [] then [] else DocumentRecords(pages[..|pages| - 1]) + PageRecords(pages[|pages| - 1].blocks)
  }

  /** The number of words in the whole document. */
  function DocumentWordCount(pages: seq<Page>): nat
  {
    if pages == [] then 0 else DocumentWordCount(pages[..|pages| - 1]) + PageWordCount(pages[|pages| - 1].blocks)
  }

  /** `text_info` for a document: its text, its word count and its block records. */
  function DocumentInfo(d: Document): TextInfo
  {
    TextInfo(d.text, DocumentWordCount(d.pages), DocumentRecords(d.pages))
  }

  function SumCounts(records: seq<BlockInfo>): nat
  {
    if records == [] then 0 else SumCounts(records[..|records| - 1]) + records[|records| - 1].wordCount
  }

  // ---------------------------------------------------------------------------
  // The per-page layout of process_pdf
  // ---------------------------------------------------------------------------

  function Rule60(): (r: string)
    ensures |r| == 60
  {
    Repeat('=', 60)
  }

  /** `text or "No text detected"`. */
  function OrFallback(text: string): (r: string)
    ensures r != []
    ensures text != [] ==> r == text
  {
    if text == [] then NoTextDetected else text
  }

  /** An empty text falls back to `No text detected`. */
  lemma OrFallbackOfEmpty(text: string)
    ensures text == [] ==> OrFallback(text) == NoTextDetected
  {
  }

  /** Page `i`'s entry in the combined text. */
  function PageEntry(i: nat, text: string): string
  {
    Rule60() + "\nPAGE " + NatToString(i) + "\n" + Rule60() + "\n" + OrFallback(text) + "\n\n"
  }

  /** `f"page_{i:03d}.txt"`. */
  function PageFileName(i: nat): string
  {
    "page_" + ZeroPad(NatToString(i), 3) + ".txt"
  }

  /** The entries of the pages, page `k + 1` at position `k`. */
  function PageEntries(results: seq<PageResult>): (entries: seq<string>)
    ensures |entries| == |results|
  {
    if results == [] then []
    else PageEntries(results[..|results| - 1]) + [PageEntry(|results|, results[|results| - 1].text)]
  }

  /** The page files: page `k + 1`'s text under its own name, without the header. */
  function PageFiles(outputDir: string, results: seq<PageResult>): (files: seq<OutputFile>)
    ensures |files| == |results|
  {
    if results == [] then []
    else
      PageFiles(outputDir, results[..|results| - 1])
        + [OutputFile(JoinPath(outputDir, PageFileName(|results|)), OrFallback(results[|results| - 1].text))]
  }

  function TotalWords(results: seq<PageResult>): nat
  {
    if results == [] then 0 else TotalWords(results[..|results| - 1]) + results[|results| - 1].wordCount
  }

  // ---------------------------------------------------------------------------
  // process_multiple_pdfs: the output directory of each PDF
  // ---------------------------------------------------------------------------

  /** `name.rfind(c)`: the last position of `c`, or -1. */
  function LastIndexOf(name: string, c: char): (i: int)
    ensures -1 <= i < |name|
    ensures i >= 0 ==> name[i] == c
    ensures forall k :: i < k < |name| ==> name[k] != c
  {
    if name == [] then -1
    else if name[|name| - 1] == c then |name| - 1
    else LastIndexOf(name[..|name| - 1], c)
  }

  /** `PurePath(name).stem`: the name without its last suffix, if it has one. */
  function Stem(name: string): (stem: string)
    ensures |stem| <= |name| && stem == name[..|stem|]
  {
    var i := LastIndexOf(name, '.');
    if 0 < i < |name| - 1 then name[..i] else name
  }

  /** `stem.replace(" ", "_")`. */
  function SafeName(s: string): (r: string)
    ensures |r| == |s| && ' ' !in r
    ensures forall k :: 0 <= k < |s| ==> r[k] == (if s[k] == ' ' then '_' else s[k])
  {
    if s == [] then []
    else SafeName(s[..|s| - 1]) + [if s[|s| - 1] == ' ' then '_' else s[|s| - 1]]
  }

  /** `os.path.join(output_base_dir, safe_name)` for the PDF named `fileName`. */
  function BatchOutputDir(baseDir: string, fileName: string): string
  {
    JoinPath(baseDir, SafeName(Stem(fileName)))
  }

  // ---------------------------------------------------------------------------
  // The OCR processor
  // ---------------------------------------------------------------------------

  /** `GoogleVisionOCR`: `clientReady` is whether `self.client` holds a client. */
  class GoogleVisionOcr {
    var clientReady: bool

    /** `__init__` clears the client and then sets it up; setup may fail. */
    constructor(setupSucceeds: bool)
      ensures clientReady == setupSucceeds
    {
      clientReady := false;
      new;
      SetupClient(setupSucceeds);
    }

    /** `setup_client`: a client when construction succeeds, none when it raises. */
    method SetupClient(succeeds: bool)
      modifies this
      ensures clientReady == succeeds
    {
      if succeeds {
        clientReady := true;
      } else {
        clientReady := false;
      }
    }

    /**
      `extract_text_from_image`: the first annotation's description, or a
      message that says why there is none. It is never empty.
    */
    function ExtractTextFromImage(call: Call<TextResponse>): (text: string)
      reads this
      ensures text != []
      ensures !clientReady ==> text == NotInitialized
      ensures clientReady && call.Raised? ==> text == "Error processing image: " + call.reason
      ensures clientReady && call.Answered? && call.response.errorMessage != [] ==>
                text == "API Error: " + call.response.errorMessage
      ensures clientReady && call.Answered? && call.response.errorMessage == [] ==>
                text == (if call.response.descriptions == [] then NoTextFound
                         else OrFallback(call.response.descriptions[0]))
    {
      if !clientReady then NotInitialized
      else match call
        case Raised(reason) => "Error processing image: " + reason
        case Answered(response) =>
          if response.errorMessage != [] then "API Error: " + response.errorMessage
          else if response.descriptions != [] then
            var fullText := response.descriptions[0];
            if fullText != [] then fullText else NoTextDetected
          else NoTextFound
    }

    /** The value `get_detailed_text_info` returns for a call. */
    function DetailedInfo(call: Call<DocumentResponse>): (info: Option<TextInfo>)
      reads this
      ensures info.Some? <==> clientReady && call.Answered? && call.response.errorMessage == []
                              && call.response.document.Some? && Annotated(call.response.document.value)
      ensures info.Some? ==> info.value == DocumentInfo(call.response.document.value)
    {
      if !clientReady then None
      else match call
        case Raised(_) => None
        case Answered(response) =>
          if response.errorMessage != [] then None
          else match response.document
            case None => None
            case Some(document) => if Annotated(document) then Some(DocumentInfo(document)) else None
    }

    /**
      `get_detailed_text_info`: walks pages, blocks, paragraphs and words,
      building each block's text and counting words, and records every block
      that has a word.
    */
    method GetDetailedTextInfo(call: Call<DocumentResponse>) returns (info: Option<TextInfo>)
      ensures info == DetailedInfo(call)
    {
      if !clientReady {
        return None;
      }
      if call.Raised? {
        return None;
      }
      var response := call.response;
      if response.errorMessage != [] {
        return None;
      }
      if response.document.None? || !Annotated(response.document.value) {
        return None;
      }
      var document := response.document.value;
      var blocks: seq<BlockInfo> := [];
      var wordCount := 0;
      for i := 0 to |document.pages|
        invariant blocks == DocumentRecords(document.pages[..i])
        invariant wordCount == DocumentWordCount(document.pages[..i])
      {
        var page := document.pages[i];
        for j := 0 to |page.blocks|
          invariant blocks == DocumentRecords(document.pages[..i]) + PageRecords(page.blocks[..j])
          invariant wordCount == DocumentWordCount(document.pages[..i]) + PageWordCount(page.blocks[..j])
        {
          var block := page.blocks[j];
          var blockText, blockWords;
          blockText, blockWords, wordCount := ScanBlock(block, wordCount);
          if blockWords > 0 {
            blocks := blocks + [BlockInfo(Strip(blockText), blockWords)];
          }
          PageStep(document.pages[..i], page.blocks, j);
        }
        assert page.blocks[..|page.blocks|] == page.blocks;
        DocumentStep(document.pages, i);
      }
      assert document.pages[..|document.pages|] == document.pages;
      var info' := TextInfo(document.text, 0, blocks);
      if wordCount > 0 {
        info' := info'.(wordCount := wordCount);
      }
      return Some(info');
    }

    /** The text and word count one page contributes in the chosen mode. */
    function PageOutcome(p: PageCalls, detailed: bool): PageResult
      reads this
    {
      if detailed then
        match DetailedInfo(p.detailed)
        case Some(info) => PageResult(info.text, info.wordCount)
        case None => PageResult(PageError, 0)
      else
        var text := ExtractTextFromImage(p.standard);
        PageResult(text, |Split(text)|)
    }

    /** The outcomes of the pages, page `k + 1` at position `k`. */
    function PageOutcomes(pages: seq<PageCalls>, detailed: bool): (results: seq<PageResult>)
      reads this
      ensures |results| == |pages|
    {
      if pages == [] then []
      else PageOutcomes(pages[..|pages| - 1], detailed) + [PageOutcome(pages[|pages| - 1], detailed)]
    }

    /** What `process_pdf` produces when it gets past its two early exits. */
    function ExtractionOf(pages: seq<PageCalls>, outputDir: string, detailed: bool): Extraction
      reads this
    {
      var results := PageOutcomes(pages, detailed);
      Extraction(PageFiles(outputDir, results),
                 OutputFile(JoinPath(outputDir, Consolidation.TextFileName),
                            Concat(PageEntries(results))),
                 TotalWords(results), |pages|)
    }

    /**
      `process_pdf`: nothing without a client or without pages; otherwise one
      API call per page, a page file per page, the combined text of all
      page entries and the total word count.
    */
    method ProcessPdf(pages: seq<PageCalls>, outputDir: string, detailed: bool)
      returns (outcome: Option<Extraction>)
      ensures outcome.None? <==> !clientReady || pages == []
      ensures outcome.Some? ==> outcome.value == ExtractionOf(pages, outputDir, detailed)
      ensures outcome.Some? ==> outcome.value.apiCalls == |pages| && |outcome.value.pageFiles| == |pages|
    {
      if !clientReady {
        return None;
      }
      if pages == [] {
        return None;
      }
      var extraction := ProcessPages(pages, outputDir, detailed);
      return Some(extraction);
    }

    /** The page loop of `process_pdf` and the combined text it saves. */
    method ProcessPages(pages: seq<PageCalls>, outputDir: string, detailed: bool) returns (extraction: Extraction)
      ensures extraction == ExtractionOf(pages, outputDir, detailed)
    {
      var allText: seq<string> := [];
      var pageFiles: seq<OutputFile> := [];
      var totalWords := 0;
      var apiCalls := 0;
      ghost var results: seq<PageResult> := [];
      for i := 0 to |pages|
        invariant results == PageOutcomes(pages[..i], detailed) && |results| == i
        invariant allText == PageEntries(results)
        invariant pageFiles == PageFiles(outputDir, results)
        invariant totalWords == TotalWords(results)
        invariant apiCalls == i
      {
        var text, wordCount := ProcessPage(pages[i], detailed);
        apiCalls := apiCalls + 1;
        OutcomesStep(pages, i, detailed);
        allText, pageFiles, totalWords := RecordPage(results, allText, pageFiles, totalWords, outputDir, text, wordCount);
        results := results + [PageResult(text, wordCount)];
      }
      assert pages[..|pages|] == pages;
      var combined := Concat(allText);
      var combinedFile := OutputFile(JoinPath(outputDir, Consolidation.TextFileName), combined);
      return Extraction(pageFiles, combinedFile, totalWords, apiCalls);
    }

    /**
      The first half of one turn of `process_pdf`'s page loop: the page's text
      and word count, from whichever call the mode makes.
    */
    method ProcessPage(page: PageCalls, detailed: bool) returns (text: string, wordCount: nat)
      ensures PageResult(text, wordCount) == PageOutcome(page, detailed)
    {
      if detailed {
        var textInfo := GetDetailedTextInfo(page.detailed);
        if textInfo.Some? {
          text := textInfo.value.text;
          wordCount := textInfo.value.wordCount;
        } else {
          text := PageError;
          wordCount := 0;
        }
      } else {
        text := ExtractTextFromImage(page.standard);
        // The `if text else 0` guard always holds: the text is never empty.
        wordCount := |Split(text)|;
      }
    }

    /** Page `k + 1`'s outcome sits at position `k`. */
    lemma {:induction false} PageOutcomesAt(pages: seq<PageCalls>, detailed: bool, k: nat)
      requires k < |pages|
      ensures PageOutcomes(pages, detailed)[k] == PageOutcome(pages[k], detailed)
      decreases |pages|
    {
      if k == |pages| - 1 {
        OutcomesLast(pages, detailed);
      } else {
        PageOutcomesAt(pages[..|pages| - 1], detailed, k);
        OutcomesInit(pages, detailed, k);
        assert pages[..|pages| - 1][k] == pages[k];
      }
    }

    lemma OutcomesLast(pages: seq<PageCalls>, detailed: bool)
      requires pages != []
      ensures PageOutcomes(pages, detailed)[|pages| - 1] == PageOutcome(pages[|pages| - 1], detailed)
    {
    }

    lemma OutcomesInit(pages: seq<PageCalls>, detailed: bool, k: nat)
      requires k < |pages| - 1
      ensures PageOutcomes(pages, detailed)[k] == PageOutcomes(pages[..|pages| - 1], detailed)[k]
    {
    }

    /**
      In standard mode a page's text is never empty, so the "No text
      detected" fallback never applies and the page counts the
      whitespace-separated tokens of exactly the text it stores.
    */
    lemma StandardPageHasText(p: PageCalls)
      ensures var r := PageOutcome(p, false);
              && r.text != []
              && OrFallback(r.text) == r.text
              && r.wordCount == |Split(r.text)|
    {
    }

    /**
      In detailed mode a page whose call yields no information stores the
      error text and counts no words; otherwise it stores the document text
      and its word count, which is also the sum of the recorded blocks' counts.
    */
    lemma DetailedPageOutcome(p: PageCalls)
      ensures var r := PageOutcome(p, true);
              && (DetailedInfo(p.detailed).None? ==> r == PageResult(PageError, 0))
              && (DetailedInfo(p.detailed).Some? ==>
                    var d := p.detailed.response.document.value;
                    && r.text == d.text
                    && r.wordCount == DocumentWordCount(d.pages)
                    && r.wordCount == SumCounts(DetailedInfo(p.detailed).value.blocks))
    {
      if DetailedInfo(p.detailed).Some? {
        RecordedCountsMatch(p.detailed.response.document.value.pages);
      }
    }

    lemma OutcomesStep(pages: seq<PageCalls>, i: nat, detailed: bool)
      requires i < |pages|
      ensures PageOutcomes(pages[..i + 1], detailed) == PageOutcomes(pages[..i], detailed) + [PageOutcome(pages[i], detailed)]
    {
      assert pages[..i + 1][..i] == pages[..i];
    }
  }

  /**
    The second half of one turn of `process_pdf`'s page loop: page
    `|results| + 1` adds its entry, its file and its word count.
  */
  method RecordPage(ghost results: seq<PageResult>, allText: seq<string>, pageFiles: seq<OutputFile>,
                    totalWords: nat, outputDir: string, text: string, wordCount: nat)
    returns (allText': seq<string>, pageFiles': seq<OutputFile>, totalWords': nat)
    requires allText == PageEntries(results) && pageFiles == PageFiles(outputDir, results)
    requires totalWords == TotalWords(results)
    ensures allText' == PageEntries(results + [PageResult(text, wordCount)])
    ensures pageFiles' == PageFiles(outputDir, results + [PageResult(text, wordCount)])
    ensures totalWords' == TotalWords(results + [PageResult(text, wordCount)])
  {
    ResultsStep(results, PageResult(text, wordCount), outputDir);
    var i := |allText|;
    allText' := allText + [PageEntry(i + 1, text)];
    pageFiles' := pageFiles + [OutputFile(JoinPath(outputDir, PageFileName(i + 1)), OrFallback(text))];
    totalWords' := totalWords + wordCount;
  }

  /** One more page adds one entry, one file and its word count. */
  lemma ResultsStep(results: seq<PageResult>, r: PageResult, outputDir: string)
    ensures var after := results + [r];
            && PageEntries(after) == PageEntries(results) + [PageEntry(|results| + 1, r.text)]
            && PageFiles(outputDir, after)
               == PageFiles(outputDir, results) + [OutputFile(JoinPath(outputDir, PageFileName(|results| + 1)), OrFallback(r.text))]
            && TotalWords(after) == TotalWords(results) + r.wordCount
  {
    var after := results + [r];
    assert after[..|after| - 1] == results;
  }

  /**
    The two inner loops of `get_detailed_text_info` for one block: each word's
    text and a blank are appended to `block_text`, and each word adds one to
    `block_words` and to the running `word_count`.
  */
  method ScanBlock(block: Block, wordCount: nat) returns (blockText: string, blockWords: nat, wordCount': nat)
    ensures blockText == RawText(BlockWords(block.paragraphs))
    ensures blockWords == |BlockWords(block.paragraphs)|
    ensures wordCount' == wordCount + blockWords
  {
    blockText, blockWords, wordCount' := "", 0, wordCount;
    for k := 0 to |block.paragraphs|
      invariant blockText == RawText(BlockWords(block.paragraphs[..k]))
      invariant blockWords == |BlockWords(block.paragraphs[..k])|
      invariant wordCount' == wordCount + blockWords
    {
      var paragraph := block.paragraphs[k];
      ghost var done := BlockWords(block.paragraphs[..k]);
      assert done + paragraph.words[..0] == done;
      for l := 0 to |paragraph.words|
        invariant blockText == RawText(done + paragraph.words[..l])
        invariant blockWords == |done| + l
        invariant wordCount' == wordCount + blockWords
      {
        var word := paragraph.words[l];
        var wordText := WordText(word);
        RawTextSnoc(done, paragraph.words, l);
        blockText := blockText + (wordText + " ");
        blockWords := blockWords + 1;
        wordCount' := wordCount' + 1;
      }
      BlockWordsSnoc(block.paragraphs, k);
    }
    assert block.paragraphs[..|block.paragraphs|] == block.paragraphs;
  }

  // ---------------------------------------------------------------------------
  // Loop steps of get_detailed_text_info
  // ---------------------------------------------------------------------------

  lemma RawTextSnoc(done: seq<Word>, words: seq<Word>, l: nat)
    requires l < |words|
    ensures RawText(done + words[..l + 1]) == RawText(done + words[..l]) + (WordText(words[l]) + " ")
  {
    var s := done + words[..l + 1];
    assert s[..|s| - 1] == done + words[..l];
  }

  /** A word is among a block's words exactly when one of its paragraphs holds it. */
  lemma {:induction false} BlockWordsMembers(paragraphs: seq<Paragraph>, w: Word)
    ensures w in BlockWords(paragraphs) <==> exists p :: p in paragraphs && w in p.words
  {
    if paragraphs != [] {
      var init, last := paragraphs[..|paragraphs| - 1], paragraphs[|paragraphs| - 1];
      BlockWordsMembers(init, w);
      assert BlockWords(paragraphs) == BlockWords(init) + last.words;
      if w in BlockWords(init) {
        var p :| p in init && w in p.words;
        assert p in paragraphs;
      } else if w in last.words {
        assert last in paragraphs;
      }
    }
  }

  lemma BlockWordsSnoc(paragraphs: seq<Paragraph>, k: nat)
    requires k < |paragraphs|
    ensures BlockWords(paragraphs[..k + 1]) == BlockWords(paragraphs[..k]) + paragraphs[k].words
    ensures BlockWords(paragraphs[..k]) + paragraphs[k].words[..|paragraphs[k].words|]
            == BlockWords(paragraphs[..k + 1])
  {
    assert paragraphs[..k + 1][..k] == paragraphs[..k];
    assert paragraphs[k].words[..|paragraphs[k].words|] == paragraphs[k].words;
  }

  lemma PageStep(done: seq<Page>, blocks: seq<Block>, j: nat)
    requires j < |blocks|
    ensures PageRecords(blocks[..j + 1]) == PageRecords(blocks[..j]) + BlockRecordList(blocks[j])
    ensures PageWordCount(blocks[..j + 1]) == PageWordCount(blocks[..j]) + |BlockWords(blocks[j].paragraphs)|
    ensures DocumentRecords(done) + PageRecords(blocks[..j + 1])
            == (DocumentRecords(done) + PageRecords(blocks[..j])) + BlockRecordList(blocks[j])
  {
    assert blocks[..j + 1][..j] == blocks[..j];
    AppendAssoc(DocumentRecords(done), PageRecords(blocks[..j]), BlockRecordList(blocks[j]));
  }

  lemma DocumentStep(pages: seq<Page>, i: nat)
    requires i < |pages|
    ensures DocumentRecords(pages[..i + 1]) == DocumentRecords(pages[..i]) + PageRecords(pages[i].blocks)
    ensures DocumentWordCount(pages[..i + 1]) == DocumentWordCount(pages[..i]) + PageWordCount(pages[i].blocks)
  {
    assert pages[..i + 1][..i] == pages[..i];
  }

  // ---------------------------------------------------------------------------
  // Properties
  // ---------------------------------------------------------------------------

  lemma {:induction false} SumCountsAppend(a: seq<BlockInfo>, b: seq<BlockInfo>)
    ensures SumCounts(a + b) == SumCounts(a) + SumCounts(b)
    decreases |b|
  {
    if b == [] {
      assert a + b == a;
    } else {
      var all := a + b;
      assert all[..|all| - 1] == a + b[..|b| - 1];
      SumCountsAppend(a, b[..|b| - 1]);
    }
  }

  /** On a page, the recorded blocks' counts add up to the page's words. */
  lemma {:induction false} PageRecordedCounts(blocks: seq<Block>)
    ensures SumCounts(PageRecords(blocks)) == PageWordCount(blocks)
    decreases |blocks|
  {
    if blocks != [] {
      var init, last := blocks[..|blocks| - 1], blocks[|blocks| - 1];
      PageRecordedCounts(init);
      SumCountsAppend(PageRecords(init), BlockRecordList(last));
      if BlockRecord(last).Some? {
        assert SumCounts([BlockRecord(last).value]) == BlockRecord(last).value.wordCount by {
          assert [BlockRecord(last).value][..0] == [];
        }
      }
    }
  }

  /**
    Blocks without words are never recorded, so the sum of the recorded
    blocks' counts is the document's total word count.
  */
  lemma {:induction false} RecordedCountsMatch(pages: seq<Page>)
    ensures SumCounts(DocumentRecords(pages)) == DocumentWordCount(pages)
    decreases |pages|
  {
    if pages != [] {
      var init, last := pages[..|pages| - 1], pages[|pages| - 1];
      RecordedCountsMatch(init);
      SumCountsAppend(DocumentRecords(init), PageRecords(last.blocks));
      PageRecordedCounts(last.blocks);
    }
  }

  /** Appending a blank after every word is joining the words with blanks and adding one. */
  lemma {:induction false} RawTextIsJoined(words: seq<Word>)
    requires words != []
    ensures RawText(words) == JoinSpaced(WordTexts(words)) + " "
    decreases |words|
  {
    var n := |words|;
    var init, last := words[..n - 1], words[n - 1];
    assert WordTexts(words) == WordTexts(init) + [WordText(last)];
    if init == [] {
      assert WordTexts(words) == [WordText(last)];
    } else {
      RawTextIsJoined(init);
      JoinSpacedSnoc(WordTexts(init), WordText(last));
      AppendAssoc(JoinSpaced(WordTexts(init)) + " ", WordText(last), " ");
    }
  }

  /**
    A recorded block's text is its words' texts joined by single blanks and
    stripped; its word count is its number of words.
  */
  lemma BlockTextIsJoinedWords(b: Block)
    requires BlockRecord(b).Some?
    ensures BlockRecord(b).value.text == Strip(JoinSpaced(WordTexts(BlockWords(b.paragraphs))))
    ensures BlockRecord(b).value.wordCount == |BlockWords(b.paragraphs)| > 0
  {
    var words := BlockWords(b.paragraphs);
    RawTextIsJoined(words);
    StripTrailingBlank(JoinSpaced(WordTexts(words)));
  }

  /** Page `k + 1`'s entry sits at position `k` of the combined text's parts. */
  lemma {:induction false} PageEntriesAt(results: seq<PageResult>, k: nat)
    requires k < |results|
    ensures PageEntries(results)[k] == PageEntry(k + 1, results[k].text)
    decreases |results|
  {
    if k < |results| - 1 {
      PageEntriesAt(results[..|results| - 1], k);
      EntriesInit(results, k);
      assert results[..|results| - 1][k] == results[k];
    }
  }

  lemma EntriesInit(results: seq<PageResult>, k: nat)
    requires k < |results| - 1
    ensures PageEntries(results)[k] == PageEntries(results[..|results| - 1])[k]
  {
  }

  /** Page `k + 1`'s file holds its text, under the name numbered `k + 1`. */
  lemma {:induction false} PageFilesAt(outputDir: string, results: seq<PageResult>, k: nat)
    requires k < |results|
    ensures PageFiles(outputDir, results)[k]
            == OutputFile(JoinPath(outputDir, PageFileName(k + 1)), OrFallback(results[k].text))
    decreases |results|
  {
    if k < |results| - 1 {
      PageFilesAt(outputDir, results[..|results| - 1], k);
      FilesInit(outputDir, results, k);
      assert results[..|results| - 1][k] == results[k];
    }
  }

  lemma FilesInit(outputDir: string, results: seq<PageResult>, k: nat)
    requires k < |results| - 1
    ensures PageFiles(outputDir, results)[k] == PageFiles(outputDir, results[..|results| - 1])[k]
  {
  }

  /** The number in a page file's name is the page number, in at least three digits. */
  lemma PageFileNameNumber(i: nat)
    ensures var digits := PageFileName(i)[5..|PageFileName(i)| - 4];
            && PageFileName(i) == "page_" + digits + ".txt"
            && AllDigits(digits) && DecimalValue(digits) == i && |digits| >= 3
  {
    var digits := ZeroPad(NatToString(i), 3);
    ZeroPadValue(NatToString(i), 3);
    var name := PageFileName(i);
    assert name == "page_" + digits + ".txt";
    assert name[5..|name| - 4] == digits;
  }

  /** Different pages never share a file name. */
  lemma PageFileNamesDistinct(i: nat, j: nat)
    requires i != j
    ensures PageFileName(i) != PageFileName(j)
  {
    PageFileNameNumber(i);
    PageFileNameNumber(j);
  }

  /** Below page 1000 the number is padded to exactly three digits. */
  lemma PageFileNameWidth(i: nat)
    requires i < 1000
    ensures |PageFileName(i)| == 12
  {
    var s := NatToString(i);
    if |s| > 3 {
      assert Pow10(3) == 1000;
      Pow10Monotone(3, |s| - 1);
      assert false;
    }
  }

  /** The stem of `name.pdf` is `name`. */
  lemma StemOfPdf(name: string)
    requires name != []
    ensures Stem(name + ".pdf") == name
  {
    var file := name + ".pdf";
    var i := LastIndexOf(file, '.');
    assert file[|name|] == '.';
    assert file[|name| + 1] == 'p' && file[|name| + 2] == 'd' && file[|name| + 3] == 'f';
    assert i == |name|;
    assert file[..|name|] == name;
  }

  /** A batch PDF's output directory is its name without `.pdf`, blanks turned into underscores. */
  lemma BatchOutputDirOfPdf(baseDir: string, name: string)
    requires name != []
    ensures BatchOutputDir(baseDir, name + ".pdf") == JoinPath(baseDir, SafeName(name))
    ensures ' ' !in SafeName(name) && |SafeName(name)| == |name|
  {
    StemOfPdf(name);
  }
}

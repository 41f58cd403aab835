# OCR-to-corpus pipeline: a verified model

The repository is a three-stage pipeline:

- `ocr_google_vision.py` OCRs PDF pages with Google Cloud Vision and writes one text file per page plus one combined file per document.
- `combine_extracted_texts.py` concatenates the per-document files into one corpus, in directory-name order.
- `prepare.py` turns that corpus into a character-level vocabulary and a 90/10 train/validation split of integer ids.

This project models the deterministic core of each stage in Dafny and proves what each one promises.

- `wrappers.dfy` (`Wrappers`): `Option`.
- `strings.dfy` (`Strings`): the Python string built-ins the scripts rely on, stated over `seq<char>`. It covers:
  - `str.isspace()`, `strip()` and `split()`;
  - `"".join` and `" ".join`;
  - `str(n)`, `{:03d}` and `{:,}`;
  - POSIX `os.path.join`;
  - the code-point order of `str.__lt__`.
- `prepare.py` becomes module `CharCodec` in `prepare.dfy` (pure functions and lemmas). It covers the vocabulary, `stoi`/`itos`, `encode`/`decode`, the split, the metadata and the summary's round-trip check.
- `combine_extracted_texts.py` becomes module `Consolidation` in `combine.dfy` (imperative). It covers:
  - `find_extracted_text_files`: a loop that filters the directory entries and then sorts them by name;
  - `combine_text_files`: a loop that appends to the output buffer and keeps a running character total.

  Both loops are proved against specification functions.
- `ocr_google_vision.py` becomes module `VisionOcr` in `ocr.dfy` (mixed).
  - Class `GoogleVisionOcr` holds whether the client was set up. Its methods are `get_detailed_text_info` and the page loop of `process_pdf`.
  - `get_detailed_text_info` has four nested loops. The class method keeps the loops over pages and blocks. The loops over paragraphs and words are the module-level method `ScanBlock`.
  - The second half of each turn of the page loop (entry, page file, word total) is the module-level method `RecordPage`.
  - The response classification of `extract_text_from_image`, the page layout, the page file names and the batch directory name are functions.

## Modelling decisions

- **Vision API.** The Vision client is replaced by what its calls return:
  - a text-detection response: an error message and the annotation descriptions;
  - a document response: an error message and an optional full-text annotation made of pages, blocks, paragraphs, words and symbols;
  - or an exception message.

  A PDF is the sequence of the responses its pages would get.
- **File system.** A directory listing is a sequence of entries, in whatever order the system enumerates them. Reading a file is a total function from its path to the text or to an error message.
- **Outputs.** Files that would be written are returned as values: the consolidated text, and the page files plus combined file of one PDF.
- **Timestamps** are opaque string parameters.
- **Edge cases as the code has them.**
  - A whitespace-only file also gets the placeholder, because the text is stripped before the emptiness test (combine_extracted_texts.py:69-72).
  - A file whose read fails adds an error line instead of a document block (combine_extracted_texts.py:90-93).
  - The split offset `int(n*0.9)` is modelled as `9n / 10`.
  - An annotation with neither a text nor a page is false in Python, so it yields no detailed information, like a missing one (ocr_google_vision.py:141-142).

## Model

| member | source | states |
|---|---|---|
| CharCodec.CharSet | prepare.py:32 | Defines `set(data)`: the characters occurring in the corpus |
| CharCodec.InsertChar | prepare.py:32 | Inserting a character into an ascending duplicate-free run keeps it ascending and duplicate-free, with exactly the old characters plus the new one |
| CharCodec.AscendingHead | prepare.py:32 | The tail of a non-empty strictly ascending run is strictly ascending and lies above its head |
| CharCodec.PrependAscending | prepare.py:32 | A character below every element of a strictly ascending run can go in front, and the run then holds exactly it and the old elements |
| CharCodec.Chars | prepare.py:32 | `chars` is strictly ascending by code point and holds exactly the characters occurring in the corpus |
| CharCodec.AscendingUnique | prepare.py:32 | Two strictly ascending runs with the same characters are equal |
| CharCodec.CharsIsSortedSet | prepare.py:32 | Any strictly ascending listing of the corpus's characters is `chars`: the vocabulary is uniquely determined |
| CharCodec.Elements | prepare.py:32 | The set of a run's elements has exactly the run's members |
| CharCodec.DistinctCount | prepare.py:32-33 | A duplicate-free run has as many distinct elements as it has positions |
| CharCodec.VocabSize | prepare.py:33 | `vocab_size` is the number of distinct characters of the corpus |
| CharCodec.Stoi | prepare.py:39 | `stoi`'s keys are exactly the corpus characters, and `chars[i]` maps to `i` |
| CharCodec.Itos | prepare.py:40 | `itos` is defined exactly on `0 .. vocab_size-1` and maps `i` to `chars[i]` |
| CharCodec.ItosOfStoi | prepare.py:39-40 | `itos[stoi[c]] == c` for every vocabulary character |
| CharCodec.StoiOfItos | prepare.py:39-40 | `stoi[itos[i]] == i` for every `i < vocab_size` |
| CharCodec.StoiIsRank | prepare.py:32-39 | `stoi[c]` is the number of corpus characters below `c` |
| CharCodec.RankSet | prepare.py:32-39 | The corpus characters below `chars[i]` are exactly the first `i` entries of `chars` |
| CharCodec.Encode | prepare.py:42-44 | `encode(s)` has `s`'s length and its `k`-th id is `stoi[s[k]]`; a character without an id is excluded by the precondition (a `KeyError` in the source) |
| CharCodec.Decode | prepare.py:46-48 | `decode(l)` has `l`'s length and its `k`-th character is `itos[l[k]]`; an unknown id is excluded (a `KeyError`) |
| CharCodec.EncodeInRange | prepare.py:42-44 | Every id `encode` produces over the vocabulary lies in `[0, vocab_size)` |
| CharCodec.DecodeEncode | prepare.py:46-48 | `decode(encode(s)) == s` for every `s` over the vocabulary |
| CharCodec.InverseMapsRoundTrip | prepare.py:42-48 | Whenever two maps undo each other on the characters of `s`, decoding with one undoes encoding with the other |
| CharCodec.EncodeDecode | prepare.py:42-48 | `encode(decode(l)) == l` for every id list below `vocab_size` |
| CharCodec.EncodeAppend | prepare.py:42-44 | `encode(a + b) == encode(a) + encode(b)` |
| CharCodec.SplitOffset | prepare.py:51-53 | The split offset `k` satisfies `10k <= 9n < 10k + 10`, that is `k = floor(9n/10)`, and `k <= n` |
| CharCodec.TrainData | prepare.py:52 | `train_data` is the prefix of length `floor(9n/10)` |
| CharCodec.ValData | prepare.py:53 | `val_data` is the suffix holding the remaining `n - floor(9n/10)` characters |
| CharCodec.SplitPartitions | prepare.py:51-53 | `train_data + val_data == data`, and the lengths add up to `len(data)` |
| CharCodec.HalvesOverCorpus | prepare.py:52-53 | Every character of either half occurs in the corpus, so both halves can be encoded |
| CharCodec.SplitTokenCounts | prepare.py:61-64 | Both halves encode; each token count equals its half's character count; the counts add up to `len(data)`; the two id lists concatenate to the encoding of the whole corpus |
| CharCodec.FitsUint16 | prepare.py:72-73 | Defines the range of `np.uint16`: every id below 65536 |
| CharCodec.EncodedIdsFitUint16 | prepare.py:68-73 | Every id fits `uint16` when the vocabulary has at most 65536 characters |
| CharCodec.BuildMeta | prepare.py:84-93 | The metadata records the vocabulary size and `stoi` and `itos` themselves, keyed by exactly the vocabulary and its id range and undoing each other, and train and val character counts that split `total_chars` at `floor(9n/10)` |
| CharCodec.UndoEachOther | prepare.py:39-40 | Defines the inverse relation of the two maps: `itos[stoi[c]] == c` on the corpus and `stoi[itos[i]] == i` below the vocabulary size |
| CharCodec.MapsInverse | prepare.py:39-40 | `itos[stoi[c]] == c` for every corpus character and `stoi[itos[i]] == i` for every `i < vocab_size` |
| CharCodec.SampleText | prepare.py:133 | The sample is at most 100 characters, all from the corpus |
| CharCodec.SampleMatches | prepare.py:133-139 | The summary's `Match:` line is `True` on every corpus |
| CharCodec.AabcVocabulary | prepare.py:32-33 | Corpus "aabc" has vocabulary `a, b, c` of size 3 |
| CharCodec.AabcCodes | prepare.py:39 | Corpus "aabc" gives the codes `a:0, b:1, c:2` |
| CharCodec.AabcEncoding | prepare.py:42-44 | "aabc" encodes to `[0, 0, 1, 2]` |
| CharCodec.AabcSplit | prepare.py:51-53 | "aabc" splits into "aab" and "c" |
| Consolidation.TextFilePath | combine_extracted_texts.py:25 | Defines the text file's path: `complete_extracted_text.txt` joined under the directory, itself joined under the base directory |
| Consolidation.Qualifies | combine_extracted_texts.py:24-26 | Defines which entries are kept: a directory that holds `complete_extracted_text.txt` |
| Consolidation.FileOf | combine_extracted_texts.py:27 | Defines the pair collected for an entry: its name and its text file's path |
| Consolidation.PathsMatch | combine_extracted_texts.py:25-27 | Defines the pairing of each name with its own directory's text file |
| Consolidation.Discovered | combine_extracted_texts.py:23-27 | The collected list is no longer than the listing, and each path is `<base>/<name>/complete_extracted_text.txt` |
| Consolidation.DiscoveredMembers | combine_extracted_texts.py:23-27 | A pair is collected exactly when some listed entry is a directory holding the text file and the pair is built from it |
| Consolidation.DiscoveredDistinct | combine_extracted_texts.py:23-27 | Entries with distinct names give collected pairs with distinct directory names, so each qualifying subdirectory appears exactly once |
| Consolidation.DiscoveredNameFrom | combine_extracted_texts.py:27 | Every collected pair is named after one of the listed entries |
| Consolidation.DistinctSnoc | combine_extracted_texts.py:27 | Appending a pair whose name is new keeps the names distinct |
| Consolidation.SortedByName | combine_extracted_texts.py:30 | Defines the order `sort(key=lambda x: x[0])` leaves: no later name is smaller than an earlier one |
| Consolidation.InsertByName | combine_extracted_texts.py:30 | Insertion into a name-sorted list keeps it sorted and adds exactly one element |
| Consolidation.ConsSorted | combine_extracted_texts.py:30 | A pair whose name is not above any name of a sorted list can go in front, and the list stays sorted |
| Consolidation.InsertFrontSorted | combine_extracted_texts.py:30 | A pair whose name sorts before the head of a sorted list sorts before all of it, so it can go in front |
| Consolidation.InsertedNotBelow | combine_extracted_texts.py:30 | When the new pair does not sort before the head, nothing the insertion into the tail returns sorts before the head |
| Consolidation.SortByName | combine_extracted_texts.py:30 | The result is sorted by directory name and is a permutation of the input |
| Consolidation.FindExtractedTextFiles | combine_extracted_texts.py:17-32 | The result is sorted by directory name and is a permutation of exactly the qualifying subdirectories |
| Consolidation.CountAtMostOne | combine_extracted_texts.py:23-27 | A list with distinct directory names holds each pair at most once |
| Consolidation.TwiceCountsTwice | combine_extracted_texts.py:30 | An element at two positions occurs at least twice in the multiset |
| Consolidation.PermutationKeepsDistinct | combine_extracted_texts.py:30 | Sorting, as any permutation, keeps names distinct and paths well formed |
| Consolidation.SortedDistinctIsStrict | combine_extracted_texts.py:30 | A sorted list with distinct names is strictly ascending |
| Consolidation.StrictlySortedUnique | combine_extracted_texts.py:30 | Two strictly ascending lists with the same members are equal |
| Consolidation.DiscoveryOrderIndependent | combine_extracted_texts.py:17-32 | Two enumerations of the same directory in any two orders yield the same sorted list |
| Consolidation.Rule | combine_extracted_texts.py:51 | The rule line is 80 characters |
| Consolidation.EmittedContent | combine_extracted_texts.py:69-72 | The emitted content is never empty and is already stripped. It is the placeholder when the file text is all whitespace, and the stripped text otherwise |
| Consolidation.PlaceholderIsStripped | combine_extracted_texts.py:72 | The placeholder `[No text content found]` is non-empty and unchanged by `strip()` |
| Consolidation.Header | combine_extracted_texts.py:50-59 | Defines the header: a rule, `CONSOLIDATED EXTRACTED TEXT`, a rule, the timestamp, the source line, the document count, a rule and a blank line |
| Consolidation.Separator | combine_extracted_texts.py:75-83 | Defines a document's separator: a rule, `DOCUMENT <i>: <name>`, a rule, the source path, the content length with thousands separators, a rule and a blank line |
| Consolidation.ErrorLine | combine_extracted_texts.py:91 | Defines the error line: `❌ Error processing <name>: <message>` and a blank line |
| Consolidation.Footer | combine_extracted_texts.py:96-104 | Defines the footer: a rule, `CONSOLIDATION COMPLETE`, a rule, the document count, the character total with thousands separators, the timestamp and a rule |
| Consolidation.DocumentBlock | combine_extracted_texts.py:64-93 | Defines what one document writes: its separator, its emitted content and a blank line when it was read, or only the error line when the read failed |
| Consolidation.CharsAdded | combine_extracted_texts.py:88-93 | What one document adds to `total_chars` is positive exactly when its read succeeded (the emitted content is never empty) |
| Consolidation.Blocks | combine_extracted_texts.py:63-93 | Defines the document blocks in list order, the `k`-th numbered `k` |
| Consolidation.TotalChars | combine_extracted_texts.py:47-88 | Defines `total_chars` after a list as the sum of what each document adds |
| Consolidation.ReadCount | combine_extracted_texts.py:64-69 | The number of documents whose read succeeded is at most the number listed |
| Consolidation.Consolidated | combine_extracted_texts.py:48-105 | Defines the whole file: header, blocks and footer, with header and footer both counting every listed document |
| Consolidation.CombineStep | combine_extracted_texts.py:63-93 | One more document adds exactly its block (separator, content and blank line, or the error line) and its characters |
| Consolidation.AppendDocument | combine_extracted_texts.py:64-93 | The buffer grows by the document's block and the total by the content's length, or by nothing when the read fails |
| Consolidation.CombineTextFiles | combine_extracted_texts.py:34-107 | An empty list gives `Failure` and writes nothing. Otherwise the result is `Success(total)`, with `total` the sum of the emitted contents' lengths, and the written text is the header (with the document count), the numbered blocks in list order, then the footer |
| Consolidation.AppendDocuments | combine_extracted_texts.py:63-93 | After the loop the file holds the header followed by every document's block in list order, and the total is the sum of what each document adds |
| Consolidation.TotalCharsAtLeastReads | combine_extracted_texts.py:88 | Every successfully read document adds at least one character to the total |
| Consolidation.TotalCharsWithoutReads | combine_extracted_texts.py:90-93 | When every read fails, the total is 0 |
| Consolidation.ConsolidationOrderIndependent | combine_extracted_texts.py:17-107 | The consolidated text does not depend on the order in which the directory is enumerated |
| VisionOcr.Annotated | ocr_google_vision.py:141 | Defines when an annotation is true in Python: it has a text or at least one page |
| VisionOcr.SymbolTexts | ocr_google_vision.py:164 | Defines `[symbol.text for symbol in word.symbols]`, in order |
| VisionOcr.WordText | ocr_google_vision.py:164 | Defines a word's text as its symbols' texts concatenated |
| VisionOcr.BlockWords | ocr_google_vision.py:162-163 | Every word that a paragraph of the block holds is among the block's words |
| VisionOcr.BlockWordsMembers | ocr_google_vision.py:162-163 | A word is among the block's words exactly when one of its paragraphs holds it |
| VisionOcr.RawText | ocr_google_vision.py:158-165 | Defines `block_text` after the loops: each word's text followed by one blank, in order |
| VisionOcr.WordTexts | ocr_google_vision.py:163-164 | Defines the list of the words' texts, in order |
| VisionOcr.BlockRecord | ocr_google_vision.py:171-176 | A block is recorded exactly when it has at least one word, with its word count |
| VisionOcr.BlockRecordList | ocr_google_vision.py:171-176 | Defines what a block appends to `text_info['blocks']`: its record, or nothing |
| VisionOcr.PageRecords | ocr_google_vision.py:157-176 | A page records at most one entry per block, each with a positive word count |
| VisionOcr.PageWordCount | ocr_google_vision.py:157-168 | Defines the words one page adds to `word_count`: the words of its blocks, summed |
| VisionOcr.DocumentWordCount | ocr_google_vision.py:156-168 | Defines `word_count` after the loops: the pages' word counts, summed |
| VisionOcr.DocumentRecords | ocr_google_vision.py:156-176 | Every recorded block has a positive word count |
| VisionOcr.DocumentInfo | ocr_google_vision.py:145-182 | Defines `text_info` for an annotation: its text, its total word count and its block records |
| VisionOcr.Rule60 | ocr_google_vision.py:247 | The page rule is 60 characters |
| VisionOcr.OrFallback | ocr_google_vision.py:248 | `text or "No text detected"` is the text itself when that is non-empty and `No text detected` when it is empty |
| VisionOcr.OrFallbackOfEmpty | ocr_google_vision.py:248 | An empty text falls back to exactly `No text detected` |
| VisionOcr.PageEntry | ocr_google_vision.py:247-248 | Defines page `i`'s entry: a 60-character rule, `PAGE i`, a rule, the text or `No text detected`, and a blank line |
| VisionOcr.PageFileName | ocr_google_vision.py:257 | Defines `page_<i>.txt` with `i` zero-padded to three digits |
| VisionOcr.PageEntries | ocr_google_vision.py:247-249 | One entry per page |
| VisionOcr.PageFiles | ocr_google_vision.py:257-259 | One file per page |
| VisionOcr.TotalWords | ocr_google_vision.py:252 | Defines `total_words` as the sum of the pages' word counts |
| VisionOcr.LastIndexOf | ocr_google_vision.py:340 | `rfind`: `-1` or a position of the character, with no occurrence after it |
| VisionOcr.Stem | ocr_google_vision.py:340 | The stem is a prefix of the file name |
| VisionOcr.SafeName | ocr_google_vision.py:340 | Every blank becomes `_` and every other character is kept, so the result has no blank and the same length |
| VisionOcr.BatchOutputDir | ocr_google_vision.py:340-341 | Defines a PDF's output directory: its stem with blanks turned into `_`, joined under the base directory |
| VisionOcr.GoogleVisionOcr.constructor | ocr_google_vision.py:23-26 | After construction the client is ready exactly when setup succeeded |
| VisionOcr.GoogleVisionOcr.SetupClient | ocr_google_vision.py:28-42 | The client is ready exactly when creating it succeeds |
| VisionOcr.GoogleVisionOcr.ExtractTextFromImage | ocr_google_vision.py:93-121 | The result is never empty and is, by case: the not-initialised message without a client; `Error processing image: <msg>` when the call raises; `API Error: <msg>` on an error message; `No text found in image` without annotations; otherwise the first description, or `No text detected` when it is empty |
| VisionOcr.GoogleVisionOcr.DetailedInfo | ocr_google_vision.py:123-186 | Information exists exactly when there is a client, the call answered, carried no error, and had a full-text annotation with a text or a page; it is then the aggregation of that annotation |
| VisionOcr.GoogleVisionOcr.GetDetailedTextInfo | ocr_google_vision.py:123-186 | The nested loops compute exactly the aggregation: the document text, the total word count, and one record per block with words |
| VisionOcr.GoogleVisionOcr.PageOutcome | ocr_google_vision.py:227-242 | Defines one page's outcome: in detailed mode the detailed text and word count, or `Error processing page` with 0 words; in standard mode the classified text and its number of `split()` tokens |
| VisionOcr.GoogleVisionOcr.PageOutcomes | ocr_google_vision.py:220-242 | One outcome per page |
| VisionOcr.GoogleVisionOcr.ExtractionOf | ocr_google_vision.py:215-272 | Defines what a successful `process_pdf` produces: the page files, `complete_extracted_text.txt` holding the page entries joined, the word total and one API call per page |
| VisionOcr.GoogleVisionOcr.ProcessPdf | ocr_google_vision.py:188-272 | No client or no pages gives failure. Otherwise the extraction is the page files, the combined file `complete_extracted_text.txt`, the word total and the call count; there are as many API calls and page files as pages |
| VisionOcr.GoogleVisionOcr.ProcessPages | ocr_google_vision.py:215-272 | The page loop builds exactly the page entries, the page files, the word total and one API call per page |
| VisionOcr.GoogleVisionOcr.ProcessPage | ocr_google_vision.py:227-242 | One page's text and word count are its outcome: detailed information or the page error with 0 words, or the classified text with its token count |
| VisionOcr.GoogleVisionOcr.PageOutcomesAt | ocr_google_vision.py:220-242 | Page `k+1`'s outcome is at position `k` |
| VisionOcr.GoogleVisionOcr.StandardPageHasText | ocr_google_vision.py:238-248 | In standard mode a page's text is never empty, so the fallback never applies and it counts the text's whitespace-separated tokens |
| VisionOcr.GoogleVisionOcr.DetailedPageOutcome | ocr_google_vision.py:227-237 | In detailed mode a failed page stores `Error processing page` with 0 words. Otherwise it stores the document text and its word count, which equals the sum of the recorded blocks' counts |
| VisionOcr.GoogleVisionOcr.OutcomesStep | ocr_google_vision.py:220-242 | One more page appends exactly its outcome |
| VisionOcr.ResultsStep | ocr_google_vision.py:244-259 | One more page appends its entry and its file and adds its words |
| VisionOcr.RecordPage | ocr_google_vision.py:246-259 | One turn's bookkeeping: the entries, page files and word total become those of the outcomes with the new page appended |
| VisionOcr.ScanBlock | ocr_google_vision.py:158-170 | The two inner loops give `block_text` as each word followed by a blank, `block_words` as the number of words, and adds that count to the running total |
| VisionOcr.RawTextSnoc | ocr_google_vision.py:163-165 | One more word appends its text and a blank |
| VisionOcr.BlockWordsSnoc | ocr_google_vision.py:162-163 | One more paragraph appends its words |
| VisionOcr.PageStep | ocr_google_vision.py:157-176 | One more block appends its record, if any, and adds its words |
| VisionOcr.DocumentStep | ocr_google_vision.py:156-176 | One more page appends its records and adds its words |
| VisionOcr.SumCountsAppend | ocr_google_vision.py:175 | Summing block counts distributes over concatenation |
| VisionOcr.SumCounts | ocr_google_vision.py:171-176 | Defines the sum of the recorded blocks' `word_count` fields |
| VisionOcr.PageRecordedCounts | ocr_google_vision.py:157-176 | On a page, the recorded blocks' counts add up to the page's words |
| VisionOcr.RecordedCountsMatch | ocr_google_vision.py:156-180 | The total `word_count` equals the sum of the recorded blocks' counts |
| VisionOcr.RawTextIsJoined | ocr_google_vision.py:163-165 | The raw block text is the words joined by single blanks, plus one trailing blank |
| VisionOcr.BlockTextIsJoinedWords | ocr_google_vision.py:164-176 | A recorded block's text is the strip of its words joined by single blanks, each word its symbols concatenated; its count is its (positive) number of words |
| VisionOcr.PageEntriesAt | ocr_google_vision.py:247-268 | Part `k` of the combined text is page `k+1`'s header (rule, `PAGE k+1`, rule) followed by its text or the fallback and a blank line |
| VisionOcr.PageFilesAt | ocr_google_vision.py:257-259 | File `k` is `page_<k+1 padded>.txt` under the output directory and holds the page text or the fallback, without the header |
| VisionOcr.PageFileNameNumber | ocr_google_vision.py:257 | A page file's name is `page_`, at least three digits denoting the page number, then `.txt` |
| VisionOcr.PageFileNamesDistinct | ocr_google_vision.py:257 | Different pages get different file names |
| VisionOcr.PageFileNameWidth | ocr_google_vision.py:257 | Below page 1000 the number has exactly three digits |
| VisionOcr.StemOfPdf | ocr_google_vision.py:340 | The stem of `name.pdf` is `name` |
| VisionOcr.BatchOutputDirOfPdf | ocr_google_vision.py:340-341 | A batch PDF's output directory is its name without `.pdf` and with blanks turned into `_`, joined under the base directory |
| Strings.IsSpace | combine_extracted_texts.py:69 | Defines whitespace as exactly the characters for which Python's `str.isspace()` holds |
| Strings.StripStart | combine_extracted_texts.py:69 | `lstrip` drops an all-whitespace prefix and leaves a suffix that starts with non-whitespace, or is empty |
| Strings.StripEnd | combine_extracted_texts.py:69 | `rstrip` drops an all-whitespace suffix and leaves a prefix that ends with non-whitespace, or is empty |
| Strings.Strip | combine_extracted_texts.py:69 | The result is drawn from the input and has no whitespace at either end. It is empty exactly when the input is all whitespace |
| Strings.StripShape | combine_extracted_texts.py:69 | The stripped text is a slice `s[a..b]` of the input `s` with `s[..a]` and `s[b..]` all whitespace |
| Strings.SliceBetweenSpaces | combine_extracted_texts.py:69 | A prefix of a suffix of `s`, each cut off by whitespace, is a slice `s[a..b]` between an all-whitespace prefix and suffix |
| Strings.PrefixOfSuffix | combine_extracted_texts.py:69 | A prefix of a suffix of `s` is a slice of `s`, and every character of it occurs in `s` |
| Strings.EmptyBetweenSpaces | combine_extracted_texts.py:69 | The piece left between the whitespace is empty exactly when all of `s` is whitespace |
| Strings.LeadingSpaceStep | combine_extracted_texts.py:69 | One more whitespace character in front keeps the `lstrip` result a suffix behind an all-whitespace prefix |
| Strings.TrailingSpaceStep | combine_extracted_texts.py:69 | One more whitespace character behind keeps the `rstrip` result a prefix before an all-whitespace suffix |
| Strings.AllSpaceCons | combine_extracted_texts.py:69 | A whitespace character in front of an all-whitespace text keeps it all whitespace |
| Strings.AllSpaceSnoc | combine_extracted_texts.py:69 | A whitespace character after an all-whitespace text keeps it all whitespace |
| Strings.StripStartOfSpaces | combine_extracted_texts.py:69 | `lstrip` ignores a whitespace prefix |
| Strings.StripStartAppend | combine_extracted_texts.py:69 | `lstrip` of `s + t` is `lstrip(s) + t` when `s` has non-whitespace |
| Strings.StripStartSkip | combine_extracted_texts.py:69 | `lstrip` drops a leading whitespace character and continues with the rest |
| Strings.StripStartKeep | combine_extracted_texts.py:69 | `lstrip` leaves a string that starts with non-whitespace unchanged |
| Strings.NotAllSpaceTail | combine_extracted_texts.py:69 | Dropping a leading whitespace character keeps a string that has non-whitespace in it non-blank |
| Strings.StripTrailingBlank | ocr_google_vision.py:165-173 | Stripping ignores one trailing blank |
| Strings.StripTrimmed | combine_extracted_texts.py:69 | A text with no whitespace at either end is its own strip |
| Strings.StripIdempotent | combine_extracted_texts.py:69 | `strip` is idempotent |
| Strings.LeadingWord | ocr_google_vision.py:242 | The leading word is a whitespace-free prefix ending at whitespace or at the end |
| Strings.Split | ocr_google_vision.py:242 | `split()` yields non-empty whitespace-free tokens |
| Strings.JoinSpaced | ocr_google_vision.py:165 | Defines `" ".join(words)` |
| Strings.JoinSpacedSnoc | ocr_google_vision.py:165 | Joining one more word appends a blank and the word |
| Strings.Concat | ocr_google_vision.py:164 | Defines `"".join(parts)`: the parts appended in order |
| Strings.ConcatAppend | ocr_google_vision.py:164 | `"".join` distributes over concatenation |
| Strings.LeadingWordOf | ocr_google_vision.py:242 | A word followed by whitespace or by nothing is the leading word |
| Strings.SplitLeadingWord | ocr_google_vision.py:242 | `split()` of a word and a whitespace-led tail is the word followed by the tail's split |
| Strings.SplitAfterBlank | ocr_google_vision.py:242 | A leading blank does not change `split()` |
| Strings.SplitJoinSpaced | ocr_google_vision.py:242 | Splitting non-empty whitespace-free words joined by blanks gives them back |
| Strings.DigitChar | ocr_google_vision.py:247 | The digit character denotes its value |
| Strings.NatToString | ocr_google_vision.py:247 | `str(n)` is a non-empty digit string without a leading zero (unless `n` is 0), of minimal length, denoting `n` |
| Strings.DecimalValue | ocr_google_vision.py:257 | Defines the number a string of decimal digits denotes, leading zeros included |
| Strings.DecimalValueAppend | ocr_google_vision.py:257 | The value of concatenated digits is the high part shifted plus the low part |
| Strings.DecimalValueSnoc | ocr_google_vision.py:257 | The value of a digit string is ten times the value without its last digit, plus that digit |
| Strings.AllDigitsAppend | ocr_google_vision.py:257 | Two digit strings concatenate to a digit string |
| Strings.DecimalValueOfZeros | ocr_google_vision.py:257 | A run of zeros denotes 0 |
| Strings.Repeat | combine_extracted_texts.py:51 | `c * n` has length `n` and only `c` |
| Strings.ZeroPad | ocr_google_vision.py:257 | `{:0w}` pads with leading zeros to at least width `w` and ends with the digits |
| Strings.ZeroPadValue | ocr_google_vision.py:257 | Zero padding keeps the value the digits denote |
| Strings.GroupThousands | combine_extracted_texts.py:80 | `{:,}` produces a non-empty text |
| Strings.RemoveCommas | combine_extracted_texts.py:80 | Removing commas leaves none |
| Strings.RemoveCommasAppend | combine_extracted_texts.py:80 | Comma removal distributes over concatenation |
| Strings.RemoveCommasOfDigits | combine_extracted_texts.py:80 | A digit string has no commas to remove |
| Strings.GroupThousandsValue | combine_extracted_texts.py:80 | With its commas removed, `{:,}` gives exactly `str(n)`: digits without a leading zero, whose value is `n` |
| Strings.CanonicalDigits | combine_extracted_texts.py:80 | A digit string without a leading zero (other than `0` itself) is `str` of the value it denotes |
| Strings.SingleDigit | combine_extracted_texts.py:80 | A single digit is `str` of its value |
| Strings.DigitStep | combine_extracted_texts.py:80 | One more digit after a canonical digit string without a leading zero keeps it canonical |
| Strings.NatToStringSnoc | combine_extracted_texts.py:80 | For `v > 0`, `str(10 * v + d)` is `str(v)` followed by the digit `d` |
| Strings.LowGroup | combine_extracted_texts.py:80 | A three-digit group below 1000 denotes its value |
| Strings.UngroupStep | combine_extracted_texts.py:80 | Removing commas from `hi,lo` gives the ungrouped `hi` followed by `lo` |
| Strings.Pow10Monotone | ocr_google_vision.py:257 | Powers of ten grow with the exponent |
| Strings.JoinPath | ocr_google_vision.py:341 | `os.path.join(a, b)` ends with `b` |
| Strings.StrLess | combine_extracted_texts.py:30 | Defines Python's `<` on `str`: code point by code point, a proper prefix first |
| Strings.StrLessIrreflexive | combine_extracted_texts.py:30 | No name sorts before itself |
| Strings.StrLessTransitive | combine_extracted_texts.py:30 | String order is transitive |
| Strings.StrLessTotal | combine_extracted_texts.py:30 | Of two distinct names one sorts first |
| Strings.StrLessAsymmetric | combine_extracted_texts.py:30 | Two names never sort before each other |

## Left out

- External services and libraries are left out: the Vision client, its authentication and `test_connection`, PDF rasterisation (`convert_pdf_to_images`, modelled as the given page sequence, empty when conversion fails) and image encoding (`image_to_bytes`). Model responses stand in for them.
- Confidence values and averages, the cost estimate, percentages and elapsed times are left out. They are floating point and printed or written to summaries.
- An empty corpus is not modelled as a failure. The split report divides by `n` (prepare.py:56), so an empty corpus raises `ZeroDivisionError` before any array or metadata is written. The model's functions are total and give an empty vocabulary and empty halves.
- A missing base directory is not modelled. `iterdir()` (combine_extracted_texts.py:23) raises when the directory does not exist; the model takes the listing as given.
- Console output, `os.makedirs`, the actual file writes and `pickle`/`tofile` serialisation are left out. The written contents are returned as values instead.
- The summary files are left out: `extraction_summary.txt`, `prepare_summary.txt` apart from its `Match:` line, and `generate_summary_report`. They only report counts and sizes.
- The size listing in `combine_text_files` (`stat` at combine_extracted_texts.py:43) is left out. When the file vanishes between discovery and this call, it raises out of the function; the model does not reproduce that crash.
- `main`, `argparse`, the interactive `input()` confirmation and the batch loop of `process_multiple_pdfs` apart from the output directory name are left out. These are dispatch and printing only.
- `total_api_calls` in `process_multiple_pdfs` is never incremented, so the batch cost is always reported as 0. Only printing depends on it.
- `combine_text_files` returns a bare `False` on an empty list but a tuple otherwise. The model uses one result type, `Failure | Success(totalChars)`.
- The annotation's truth test (ocr_google_vision.py:141) looks at its text and its pages only. Its other fields are not modelled.
- `pathlib` path normalisation (repeated or trailing separators, and `.` components such as a base directory of `.` or `./x`) is not modelled. The `Source File:` line therefore keeps a `./` that `pathlib` would drop. Paths are joined as POSIX `os.path.join` joins strings.
- The in-place `list.sort` is modelled as a method that returns a new sorted sequence, since the list is local to the function.
- CharCodec.SplitOffset: the float product `int(n*0.9)` is modelled as the integer `9n / 10`. The two agree unless rounding of the double product crosses an integer, which needs corpora far beyond real sizes.
- CharCodec.EncodedIdsFitUint16: converting ids of 65536 and above to `uint16` (prepare.py:72-73) is not modelled. Depending on the NumPy version it wraps around silently or raises `OverflowError`. The lemma proves the ids fit only under the vocabulary bound that the code assumes without checking.

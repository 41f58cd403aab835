/**
  Consolidation of the per-document OCR outputs (combine_extracted_texts.py).
  Discovery keeps the subdirectories of the base directory that hold a
  `complete_extracted_text.txt` and sorts them by directory name; combining
  writes a header, then one numbered block per document in that order (its
  stripped text, or a placeholder when that is empty, or an error line when
  the file cannot be read), then a footer, and keeps a running character total.

  The file system is a parameter: the directory listing is a sequence of
  entries in whatever order the system enumerates them, and the outcome of
  reading a file is a total function from its path to the text or the error
  message that the read raised. The size listing's `stat` call, which raises
  for a file that has vanished since discovery, is not modelled.
  The two timestamps are opaque strings.
*/
module Consolidation {
  import opened Strings
  import opened Wrappers

  const TextFileName: string := "complete_extracted_text.txt"
  const NoTextPlaceholder: string := "[No text content found]"

  /**
    A directory entry as `iterdir()` yields it: its name, whether it is a
    directory, and whether `<entry>/complete_extracted_text.txt` exists.
  */
  datatype Entry = Entry(name: string, isDir: bool, hasTextFile: bool)

  /** One `(item.name, text_file)` pair of the discovered list. */
  datatype TextFile = TextFile(dirName: string, path: string)

  /** What reading one text file gives: its text, or the exception's message. */
  datatype ReadResult = Contents(text: string) | ReadError(reason: string)

  /** `combine_text_files` returns `False`, or `(True, total_chars)`. */
  datatype CombineResult = Failure | Success(totalChars: nat)

  // ---------------------------------------------------------------------------
  // find_extracted_text_files
  // ---------------------------------------------------------------------------

  /** `str(Path(baseDir) / dirName / "complete_extracted_text.txt")`. */
  function TextFilePath(baseDir: string, dirName: string): string
  {
    JoinPath(JoinPath(baseDir, dirName), TextFileName)
  }

  predicate Qualifies(e: Entry)
  {
    e.isDir && e.hasTextFile
  }

  function FileOf(baseDir: string, e: Entry): TextFile
  {
    TextFile(e.name, TextFilePath(baseDir, e.name))
  }

  /** Every pair carries the path of its own directory's text file. */
  predicate PathsMatch(baseDir: string, files: seq<TextFile>)
  {
    forall f :: f in files ==> f.path == TextFilePath(baseDir, f.dirName)
  }

  predicate DistinctNames(entries: seq<Entry>)
  {
    forall i, j :: 0 <= i < j < |entries| ==> entries[i].name != entries[j].name
  }

  predicate DistinctDirNames(files: seq<TextFile>)
  {
    forall i, j :: 0 <= i < j < |files| ==> files[i].dirName != files[j].dirName
  }

  /** The list the discovery loop builds, in enumeration order, before sorting. */
  function Discovered(baseDir: string, entries: seq<Entry>): (found: seq<TextFile>)
    ensures |found| <= |entries| && PathsMatch(baseDir, found)
  {
    if entries == [] then []
    else
      var last := entries[|entries| - 1];
      Discovered(baseDir, entries[..|entries| - 1])
        + (if Qualifies(last) then [FileOf(baseDir, last)] else [])
  }

  /** A pair is discovered exactly when some qualifying entry gives rise to it. */
  lemma {:induction false} DiscoveredMembers(baseDir: string, entries: seq<Entry>, f: TextFile)
    ensures f in Discovered(baseDir, entries) <==> exists e :: e in entries && Qualifies(e) && f == FileOf(baseDir, e)
    decreases |entries|
  {
    if entries != [] {
      var init, last := entries[..|entries| - 1], entries[|entries| - 1];
      var prev := Discovered(baseDir, init);
      DiscoveredMembers(baseDir, init, f);
      SnocMembers(entries);
      if f in prev {
        var e :| e in init && Qualifies(e) && f == FileOf(baseDir, e);
        assert e in entries;
      } else if Qualifies(last) && f == FileOf(baseDir, last) {
        assert last in entries;
      } else {
        assert f !in Discovered(baseDir, entries);
      }
    }
  }

  /** Without two entries of the same name, no directory is discovered twice. */
  lemma {:induction false} DiscoveredDistinct(baseDir: string, entries: seq<Entry>)
    requires DistinctNames(entries)
    ensures DistinctDirNames(Discovered(baseDir, entries))
    decreases |entries|
  {
    if entries != [] {
      var init, last := entries[..|entries| - 1], entries[|entries| - 1];
      assert DistinctNames(init) by {
        forall i, j | 0 <= i < j < |init| ensures init[i].name != init[j].name {
          assert init[i] == entries[i] && init[j] == entries[j];
        }
      }
      DiscoveredDistinct(baseDir, init);
      var prev := Discovered(baseDir, init);
      if Qualifies(last) {
        forall x | x in prev ensures x.dirName != last.name {
          DiscoveredNameFrom(baseDir, init, x);
          var j :| 0 <= j < |init| && init[j].name == x.dirName;
          assert entries[j] == init[j];
        }
        DistinctSnoc(prev, FileOf(baseDir, last));
      } else {
        assert prev + [] == prev;
      }
    }
  }

  /** A discovered pair is named after one of the entries. */
  lemma DiscoveredNameFrom(baseDir: string, entries: seq<Entry>, f: TextFile)
    requires f in Discovered(baseDir, entries)
    ensures exists j :: 0 <= j < |entries| && entries[j].name == f.dirName
  {
    DiscoveredMembers(baseDir, entries, f);
    var e :| e in entries && Qualifies(e) && f == FileOf(baseDir, e);
    var j :| 0 <= j < |entries| && entries[j] == e;
    assert entries[j].name == f.dirName;
  }

  lemma DistinctSnoc(files: seq<TextFile>, g: TextFile)
    requires DistinctDirNames(files)
    requires forall x :: x in files ==> x.dirName != g.dirName
    ensures DistinctDirNames(files + [g])
  {
    var r := files + [g];
    forall i, j | 0 <= i < j < |r| ensures r[i].dirName != r[j].dirName {
      assert r[i] == files[i];
      if j < |files| { assert r[j] == files[j]; } else { assert files[i] in files; }
    }
  }

  /** Sorted by directory name: no later name is smaller than an earlier one. */
  predicate SortedByName(files: seq<TextFile>)
  {
    forall i, j :: 0 <= i < j < |files| ==> !StrLess(files[j].dirName, files[i].dirName)
  }

  predicate StrictlySortedByName(files: seq<TextFile>)
  {
    forall i, j :: 0 <= i < j < |files| ==> StrLess(files[i].dirName, files[j].dirName)
  }

  /** Places `f` after every pair whose name is not larger than its own. */
  function InsertByName(sorted: seq<TextFile>, f: TextFile): (r: seq<TextFile>)
    requires SortedByName(sorted)
    ensures SortedByName(r)
    ensures multiset(r) == multiset(sorted) + multiset{f}
  {
    if sorted == [] then [f]
    else if StrLess(f.dirName, sorted[0].dirName) then
      InsertFrontSorted(sorted, f);
      [f] + sorted
    else
      var tail := InsertByName(sorted[1..], f);
      ConsTail(sorted);
      InsertedNotBelow(sorted, f, tail);
      ConsSorted(sorted[0], tail);
      [sorted[0]] + tail
  }

  /** A pair no larger than the head of a sorted list may go in front of it. */
  lemma ConsSorted(head: TextFile, tail: seq<TextFile>)
    requires SortedByName(tail)
    requires forall x :: x in tail ==> !StrLess(x.dirName, head.dirName)
    ensures SortedByName([head] + tail)
  {
    var r := [head] + tail;
    forall i, j | 0 <= i < j < |r| ensures !StrLess(r[j].dirName, r[i].dirName) {
      assert r[j] == tail[j - 1];
      if i > 0 { assert r[i] == tail[i - 1]; } else { assert tail[j - 1] in tail; }
    }
  }

  /** A pair smaller than the head of a sorted list is smaller than all of it. */
  lemma InsertFrontSorted(sorted: seq<TextFile>, f: TextFile)
    requires SortedByName(sorted) && sorted != [] && StrLess(f.dirName, sorted[0].dirName)
    ensures SortedByName([f] + sorted)
  {
    forall x | x in sorted ensures !StrLess(x.dirName, f.dirName) {
      var k :| 0 <= k < |sorted| && sorted[k] == x;
      if StrLess(x.dirName, f.dirName) {
        if k > 0 {
          StrLessTransitive(x.dirName, f.dirName, sorted[0].dirName);
        } else {
          StrLessAsymmetric(f.dirName, sorted[0].dirName);
        }
      }
    }
    ConsSorted(f, sorted);
  }

  /** What the recursive insertion returns stays above the head it went behind. */
  lemma InsertedNotBelow(sorted: seq<TextFile>, f: TextFile, tail: seq<TextFile>)
    requires SortedByName(sorted) && sorted != [] && !StrLess(f.dirName, sorted[0].dirName)
    requires multiset(tail) == multiset(sorted[1..]) + multiset{f}
    ensures forall x :: x in tail ==> !StrLess(x.dirName, sorted[0].dirName)
  {
    forall x | x in tail ensures !StrLess(x.dirName, sorted[0].dirName) {
      assert x in multiset(tail);
      if x != f {
        assert x in multiset(sorted[1..]);
        var k :| 0 <= k < |sorted[1..]| && sorted[1..][k] == x;
        assert sorted[k + 1] == x;
      }
    }
  }

  /** `text_files.sort(key=lambda x: x[0])`, on the list as a value. */
  method SortByName(files: seq<TextFile>) returns (sorted: seq<TextFile>)
    ensures SortedByName(sorted)
    ensures multiset(sorted) == multiset(files)
  {
    sorted := [];
    for i := 0 to |files|
      invariant SortedByName(sorted)
      invariant multiset(sorted) == multiset(files[..i])
    {
      assert files[..i + 1] == files[..i] + [files[i]];
      sorted := InsertByName(sorted, files[i]);
    }
    assert files[..|files|] == files;
  }

  /**
    `find_extracted_text_files`: the loop appends one pair per subdirectory
    holding the text file, then the list is sorted by directory name.
  */
  method FindExtractedTextFiles(baseDir: string, entries: seq<Entry>) returns (textFiles: seq<TextFile>)
    ensures SortedByName(textFiles)
    ensures multiset(textFiles) == multiset(Discovered(baseDir, entries))
  {
    var found: seq<TextFile> := [];
    for i := 0 to |entries|
      invariant found == Discovered(baseDir, entries[..i])
    {
      var item := entries[i];
      assert entries[..i + 1][..i] == entries[..i];
      if item.isDir && item.hasTextFile {
        found := found + [TextFile(item.name, TextFilePath(baseDir, item.name))];
      }
    }
    assert entries[..|entries|] == entries;
    textFiles := SortByName(found);
  }

  // ---------------------------------------------------------------------------
  // The discovered list does not depend on the enumeration order
  // ---------------------------------------------------------------------------

  lemma {:induction false} CountAtMostOne(files: seq<TextFile>, x: TextFile)
    requires DistinctDirNames(files)
    ensures multiset(files)[x] <= 1
    decreases |files|
  {
    if files != [] {
      var tail := files[1..];
      assert DistinctDirNames(tail);
      CountAtMostOne(tail, x);
      ConsTail(files);
      assert multiset(files) == multiset{files[0]} + multiset(tail);
      if x == files[0] {
        assert x !in tail;
      }
    }
  }

  lemma TwiceCountsTwice(files: seq<TextFile>, i: nat, j: nat)
    requires i < j < |files| && files[i] == files[j]
    ensures multiset(files)[files[i]] >= 2
  {
    var x := files[i];
    assert files == files[..j] + [files[j]] + files[j + 1..];
    assert x in files[..j];
    assert multiset(files) == multiset(files[..j]) + multiset{x} + multiset(files[j + 1..]);
  }

  /** A rearrangement of a list with distinct directory names has distinct names too. */
  lemma PermutationKeepsDistinct(baseDir: string, a: seq<TextFile>, b: seq<TextFile>)
    requires multiset(a) == multiset(b)
    requires DistinctDirNames(b) && PathsMatch(baseDir, b)
    ensures DistinctDirNames(a) && PathsMatch(baseDir, a)
  {
    forall f | f in a ensures f.path == TextFilePath(baseDir, f.dirName) {
      assert f in multiset(b);
    }
    forall i, j | 0 <= i < j < |a| ensures a[i].dirName != a[j].dirName {
      if a[i].dirName == a[j].dirName {
        assert a[i] in multiset(b) && a[j] in multiset(b);
        assert a[i] == a[j];
        TwiceCountsTwice(a, i, j);
        CountAtMostOne(b, a[i]);
      }
    }
  }

  lemma SortedDistinctIsStrict(files: seq<TextFile>)
    requires SortedByName(files) && DistinctDirNames(files)
    ensures StrictlySortedByName(files)
  {
    forall i, j | 0 <= i < j < |files| ensures StrLess(files[i].dirName, files[j].dirName) {
      StrLessTotal(files[i].dirName, files[j].dirName);
    }
  }

  /** Two lists strictly sorted by name with the same members are the same list. */
  lemma {:induction false} StrictlySortedUnique(a: seq<TextFile>, b: seq<TextFile>)
    requires StrictlySortedByName(a) && StrictlySortedByName(b)
    requires forall f :: f in a <==> f in b
    ensures a == b
    decreases |a|
  {
    assert a != [] <==> b != [] by {
      if a != [] { assert a[0] in b; }
      if b != [] { assert b[0] in a; }
    }
    if a != [] {
      assert a[0] == b[0] by {
        assert a[0] in a && b[0] in b;
        var i :| 0 <= i < |b| && b[i] == a[0];
        var j :| 0 <= j < |a| && a[j] == b[0];
        if i != 0 {
          if j != 0 {
            StrLessAsymmetric(a[0].dirName, b[0].dirName);
          } else {
            StrLessIrreflexive(a[0].dirName);
          }
        }
      }
      forall f ensures f in a[1..] <==> f in b[1..] {
        if f in a[1..] {
          var k :| 0 <= k < |a[1..]| && a[1..][k] == f;
          assert a[k + 1] == f && f in a;
          var i :| 0 <= i < |b| && b[i] == f;
          if i == 0 { StrLessIrreflexive(f.dirName); }
          assert b[1..][i - 1] == f;
        }
        if f in b[1..] {
          var k :| 0 <= k < |b[1..]| && b[1..][k] == f;
          assert b[k + 1] == f && f in b;
          var i :| 0 <= i < |a| && a[i] == f;
          if i == 0 { StrLessIrreflexive(f.dirName); }
          assert a[1..][i - 1] == f;
        }
      }
      StrictlySortedUnique(a[1..], b[1..]);
      ConsTail(a);
      ConsTail(b);
    }
  }

  /**
    Whatever order the directory is enumerated in, discovery returns the same
    list: any two results of `FindExtractedTextFiles`, for two enumerations of
    one directory, are equal.
  */
  lemma DiscoveryOrderIndependent(baseDir: string, e1: seq<Entry>, e2: seq<Entry>,
                                  f1: seq<TextFile>, f2: seq<TextFile>)
    requires multiset(e1) == multiset(e2) && DistinctNames(e1) && DistinctNames(e2)
    requires SortedByName(f1) && multiset(f1) == multiset(Discovered(baseDir, e1))
    requires SortedByName(f2) && multiset(f2) == multiset(Discovered(baseDir, e2))
    ensures f1 == f2
  {
    var d1, d2 := Discovered(baseDir, e1), Discovered(baseDir, e2);
    DiscoveredDistinct(baseDir, e1);
    DiscoveredDistinct(baseDir, e2);
    PermutationKeepsDistinct(baseDir, f1, d1);
    PermutationKeepsDistinct(baseDir, f2, d2);
    SortedDistinctIsStrict(f1);
    SortedDistinctIsStrict(f2);
    forall f ensures f in f1 <==> f in f2 {
      assert f in f1 <==> f in multiset(d1);
      assert f in f2 <==> f in multiset(d2);
      DiscoveredMembers(baseDir, e1, f);
      DiscoveredMembers(baseDir, e2, f);
      assert forall e :: e in e1 <==> e in e2 by {
        forall e ensures e in e1 <==> e in e2 {
          assert e in e1 <==> e in multiset(e1);
          assert e in e2 <==> e in multiset(e2);
        }
      }
    }
    StrictlySortedUnique(f1, f2);
  }

  // ---------------------------------------------------------------------------
  // combine_text_files: the layout of the consolidated file
  // ---------------------------------------------------------------------------

  function Rule(): (r: string)
    ensures |r| == 80
  {
    Repeat('=', 80)
  }

  function Header(count: nat, generated: string): string
  {
    "\n" + Rule() + "\nCONSOLIDATED EXTRACTED TEXT\n" + Rule()
    + "\nGenerated: " + generated
    + "\nSource: Google Cloud Vision OCR\nTotal documents: " + NatToString(count)
    + "\n" + Rule() + "\n\n"
  }

  function Separator(index: nat, f: TextFile, content: string): string
  {
    "\n" + Rule() + "\nDOCUMENT " + NatToString(index) + ": " + f.dirName + "\n" + Rule()
    + "\nSource File: " + f.path
    + "\nCharacters: " + GroupThousands(|content|)
    + "\n" + Rule() + "\n\n"
  }

  function ErrorLine(f: TextFile, reason: string): string
  {
    "\U{274C} Error processing " + f.dirName + ": " + reason + "\n\n"
  }

  function Footer(count: nat, totalChars: nat, finished: string): string
  {
    "\n" + Rule() + "\nCONSOLIDATION COMPLETE\n" + Rule()
    + "\nTotal documents processed: " + NatToString(count)
    + "\nTotal characters: " + GroupThousands(totalChars)
    + "\nGenerated: " + finished
    + "\n" + Rule() + "\n"
  }

  /**
    The text a document contributes: its stripped text, or the placeholder
    when nothing is left. It is never empty and is already stripped.
  */
  function EmittedContent(text: string): (content: string)
    ensures content != []
    ensures Strip(content) == content
    ensures AllSpace(text) ==> content == NoTextPlaceholder
    ensures !AllSpace(text) ==> content == Strip(text)
  {
    var stripped := Strip(text);
    StripIdempotent(text);
    if stripped == [] then
      PlaceholderIsStripped();
      NoTextPlaceholder
    else
      stripped
  }

  lemma PlaceholderIsStripped()
    ensures NoTextPlaceholder != [] && Strip(NoTextPlaceholder) == NoTextPlaceholder
  {
    var p := NoTextPlaceholder;
    assert p[0] == '[' && p[|p| - 1] == ']';
    StripTrimmed(p);
  }

  function DocumentBlock(index: nat, f: TextFile, r: ReadResult): string
  {
    match r
    case Contents(text) =>
      var content := EmittedContent(text);
      Separator(index, f, content) + content + "\n\n"
    case ReadError(reason) => ErrorLine(f, reason)
  }

  /** What a document adds to `total_chars`: its emitted length when it was read, else nothing. */
  function CharsAdded(r: ReadResult): (n: nat)
    ensures n > 0 <==> r.Contents?
  {
    match r
    case Contents(text) => |EmittedContent(text)|
    case ReadError(_) => 0
  }

  /** The blocks of `files`, document `k` (1-based) numbered `k`, in list order. */
  function Blocks(files: seq<TextFile>, fs: string -> ReadResult): string
  {
    if files == [] then []
    else
      var n := |files|;
      Blocks(files[..n - 1], fs) + DocumentBlock(n, files[n - 1], fs(files[n - 1].path))
  }

  /** `total_chars` after the documents of `files`. */
  function TotalChars(files: seq<TextFile>, fs: string -> ReadResult): nat
  {
    if files == [] then 0
    else TotalChars(files[..|files| - 1], fs) + CharsAdded(fs(files[|files| - 1].path))
  }

  /** The number of documents that were read, at most the number listed. */
  function ReadCount(files: seq<TextFile>, fs: string -> ReadResult): (n: nat)
    ensures n <= |files|
  {
    if files == [] then 0
    else ReadCount(files[..|files| - 1], fs) + (if fs(files[|files| - 1].path).Contents? then 1 else 0)
  }

  /** The whole consolidated file. Header and footer both count every listed document. */
  function Consolidated(files: seq<TextFile>, fs: string -> ReadResult,
                        generated: string, finished: string): string
  {
    Header(|files|, generated) + Blocks(files, fs)
      + Footer(|files|, TotalChars(files, fs), finished)
  }

  /** One turn of the combining loop extends the output and the total by one document. */
  lemma CombineStep(files: seq<TextFile>, i: nat, fs: string -> ReadResult,
                    header: string, out: string, total: nat)
    requires i < |files|
    requires out == header + Blocks(files[..i], fs) && total == TotalChars(files[..i], fs)
    ensures out + DocumentBlock(i + 1, files[i], fs(files[i].path)) == header + Blocks(files[..i + 1], fs)
    ensures total + CharsAdded(fs(files[i].path)) == TotalChars(files[..i + 1], fs)
  {
    assert files[..i + 1][..i] == files[..i];
    AppendAssoc(header, Blocks(files[..i], fs), DocumentBlock(i + 1, files[i], fs(files[i].path)));
  }

  /**
    One turn of the combining loop: a document that was read is written as
    its separator, its content and a blank line, and its length is added to
    the total; a read failure writes the error line and adds nothing.
  */
  method AppendDocument(outfile: string, total: nat, index: nat, file: TextFile, read: ReadResult)
    returns (outfile': string, total': nat)
    ensures outfile' == outfile + DocumentBlock(index, file, read)
    ensures total' == total + CharsAdded(read)
  {
    outfile', total' := outfile, total;
    match read {
      case Contents(text) =>
        var content := EmittedContent(text);
        ghost var separator := Separator(index, file, content);
        outfile' := outfile' + Separator(index, file, content);
        outfile' := outfile' + content;
        outfile' := outfile' + "\n\n";
        total' := total' + |content|;
        AppendAssoc(outfile, separator, content);
        AppendAssoc(outfile, separator + content, "\n\n");
      case ReadError(reason) =>
        outfile' := outfile' + ErrorLine(file, reason);
    }
  }

  /**
    `combine_text_files`: with no documents nothing is written and the result
    is a failure; otherwise the file holds exactly `Consolidated(...)` and the
    result carries the character total.
  */
  method CombineTextFiles(textFiles: seq<TextFile>, fs: string -> ReadResult,
                          generated: string, finished: string)
    returns (result: CombineResult, written: Option<string>)
    ensures textFiles == [] <==> result == Failure
    ensures textFiles == [] ==> written == None
    ensures textFiles != [] ==> result == Success(TotalChars(textFiles, fs))
    ensures textFiles != [] ==> written == Some(Consolidated(textFiles, fs, generated, finished))
  {
    if textFiles == [] {
      return Failure, None;
    }
    var outfile, total := AppendDocuments(Header(|textFiles|, generated), textFiles, fs);
    outfile := outfile + Footer(|textFiles|, total, finished);
    return Success(total), Some(outfile);
  }

  /** The loop of `combine_text_files`: the blocks of all documents after `header`, and their character total. */
  method AppendDocuments(header: string, textFiles: seq<TextFile>, fs: string -> ReadResult)
    returns (outfile: string, total: nat)
    ensures outfile == header + Blocks(textFiles, fs)
    ensures total == TotalChars(textFiles, fs)
  {
    total := 0;
    outfile := header;
    for i := 0 to |textFiles|
      invariant outfile == header + Blocks(textFiles[..i], fs)
      invariant total == TotalChars(textFiles[..i], fs)
    {
      CombineStep(textFiles, i, fs, header, outfile, total);
      outfile, total := AppendDocument(outfile, total, i + 1, textFiles[i], fs(textFiles[i].path));
    }
    assert textFiles[..|textFiles|] == textFiles;
  }

  // ---------------------------------------------------------------------------
  // Properties of the layout
  // ---------------------------------------------------------------------------

  /** Every document that was read adds at least one character: none is skipped. */
  lemma {:induction false} TotalCharsAtLeastReads(files: seq<TextFile>, fs: string -> ReadResult)
    ensures ReadCount(files, fs) <= TotalChars(files, fs)
    decreases |files|
  {
    if files != [] {
      TotalCharsAtLeastReads(files[..|files| - 1], fs);
    }
  }

  /** A document that cannot be read adds nothing to the total. */
  lemma {:induction false} TotalCharsWithoutReads(files: seq<TextFile>, fs: string -> ReadResult)
    requires forall f :: f in files ==> fs(f.path).ReadError?
    ensures TotalChars(files, fs) == 0 && ReadCount(files, fs) == 0
    decreases |files|
  {
    if files != [] {
      var init := files[..|files| - 1];
      assert forall f :: f in init ==> f in files;
      TotalCharsWithoutReads(init, fs);
      assert files[|files| - 1] in files;
    }
  }

  /**
    The same directory enumerated in two orders yields the same consolidated
    file, given the same files on disk and the same timestamps.
  */
  lemma ConsolidationOrderIndependent(baseDir: string, e1: seq<Entry>, e2: seq<Entry>,
                                      f1: seq<TextFile>, f2: seq<TextFile>,
                                      fs: string -> ReadResult, generated: string, finished: string)
    requires multiset(e1) == multiset(e2) && DistinctNames(e1) && DistinctNames(e2)
    requires SortedByName(f1) && multiset(f1) == multiset(Discovered(baseDir, e1))
    requires SortedByName(f2) && multiset(f2) == multiset(Discovered(baseDir, e2))
    ensures Consolidated(f1, fs, generated, finished) == Consolidated(f2, fs, generated, finished)
  {
    DiscoveryOrderIndependent(baseDir, e1, e2, f1, f2);
  }
}

/**
 * `/upload`: each file's extension is checked against the whitelist, its
 * copy is saved, its text extracted, chunked and indexed, and every file
 * ends as one success or one error entry. The document directory and the
 * vector collection are the two pieces of state it changes.
 */
module Upload {
  import opened Wrappers
  import opened Strings
  import opened Text
  import opened Chunking

  // ---------------------------------------------------------------------
  // File names and extensions

  /** The last index below `n` at which `s` holds `c`, or -1. */
  function LastBefore(s: string, c: char, n: nat): (r: int)
    requires n <= |s|
    ensures -1 <= r < n
    ensures r >= 0 ==> s[r] == c
  {
    if n == 0 then -1
    else if s[n - 1] == c then n - 1
    else LastBefore(s, c, n - 1)
  }

  /** Nothing after `LastBefore(s, c, n)` and below `n` is `c`. */
  lemma {:induction false} LastBeforeIsLast(s: string, c: char, n: nat)
    requires n <= |s|
    ensures forall j :: LastBefore(s, c, n) < j < n ==> s[j] != c
  {
    if n > 0 && s[n - 1] != c {
      LastBeforeIsLast(s, c, n - 1);
    }
  }

  /** Python's `str.rfind` for one character: the last index of `c`, or -1. */
  function RFind(s: string, c: char): (r: int)
    ensures -1 <= r < |s|
    ensures r >= 0 ==> s[r] == c
  {
    LastBefore(s, c, |s|)
  }

  /** `rfind` finds the last occurrence: there is none after it. */
  lemma RFindIsLast(s: string, c: char)
    ensures forall j :: RFind(s, c) < j < |s| ==> s[j] != c
  {
    LastBeforeIsLast(s, c, |s|);
  }

  /** The last index below `n` at which `s` holds something other than '.', or -1. */
  function LastNonDot(s: string, n: nat): (r: int)
    requires n <= |s|
    ensures -1 <= r < n
    ensures r >= 0 ==> s[r] != '.'
  {
    if n == 0 then -1
    else if s[n - 1] != '.' then n - 1
    else LastNonDot(s, n - 1)
  }

  /** Everything after `LastNonDot(s, n)` and below `n` is a '.'. */
  lemma {:induction false} LastNonDotIsLast(s: string, n: nat)
    requires n <= |s|
    ensures forall j :: LastNonDot(s, n) < j < n ==> s[j] == '.'
  {
    if n > 0 && s[n - 1] == '.' {
      LastNonDotIsLast(s, n - 1);
    }
  }

  /**
   * `os.path.splitext(path)[1]` on POSIX: from the last '.' to the end,
   * provided that '.' comes after the last '/' and the last path component
   * has something other than dots before it (a leading-dot name such as
   * ".md" has no extension).
   */
  function Extension(path: string): string
  {
    var sep := RFind(path, '/');
    var dot := RFind(path, '.');
    if dot > sep && LastNonDot(path, dot) > sep then path[dot..] else ""
  }

  /** The extension is a suffix of the path, and starts with '.' when there is one. */
  lemma ExtensionIsSuffix(path: string)
    ensures var ext := Extension(path);
      |ext| <= |path| && ext == path[|path| - |ext|..] && (ext != [] ==> ext[0] == '.')
  {
  }

  /**
   * The extension, described without `rfind`: it is non-empty exactly when
   * the last path component has a character other than '.' somewhere
   * before a '.'.
   */
  lemma ExtensionIffDotAfterName(path: string)
    ensures Extension(path) != [] <==>
      exists i, j :: RFind(path, '/') < i < j < |path| && path[i] != '.' && path[j] == '.'
  {
    var sep := RFind(path, '/');
    RFindIsLast(path, '.');
    if Extension(path) != [] {
      var dot := RFind(path, '.');
      LastNonDotIsLast(path, dot);
      var i :| sep + 1 <= i < dot && path[i] != '.';
      assert sep < i < dot < |path| && path[i] != '.' && path[dot] == '.';
    }
    forall i, j | sep < i < j < |path| && path[i] != '.' && path[j] == '.'
      ensures Extension(path) != []
    {
      var dot := RFind(path, '.');
      assert j <= dot;
      LastNonDotIsLast(path, dot);
      assert LastNonDot(path, dot) >= i;
    }
  }

  /**
   * A non-empty extension starts at the last '.', so it holds no other '.'
   * and, that '.' being after the last '/', no '/'.
   */
  lemma ExtensionIsLastDotSuffix(path: string)
    requires Extension(path) != []
    ensures var ext := Extension(path);
      |ext| < |path| - RFind(path, '/') &&
      forall k :: 1 <= k < |ext| ==> ext[k] != '.' && ext[k] != '/'
  {
    var dot := RFind(path, '.');
    var ext := Extension(path);
    RFindIsLast(path, '.');
    RFindIsLast(path, '/');
    assert forall k :: 1 <= k < |ext| ==> ext[k] == path[dot + k];
  }

  /** ASCII lower case of one character. */
  function LowerChar(c: char): char
  {
    if 'A' <= c <= 'Z' then (c as int + 32) as char else c
  }

  /** `str.lower()` restricted to ASCII letters. */
  function Lower(s: string): string
  {
    seq(|s|, i requires 0 <= i < |s| => LowerChar(s[i]))
  }

  /** Lower-casing keeps the length, leaves no ASCII capital, and changes only ASCII capitals. */
  lemma LowerAscii(s: string)
    ensures |Lower(s)| == |s|
    ensures forall i :: 0 <= i < |s| ==> !('A' <= Lower(s)[i] <= 'Z')
    ensures forall i :: 0 <= i < |s| ==> Lower(s)[i] == s[i] || ('A' <= s[i] <= 'Z' && Lower(s)[i] as int == s[i] as int + 32)
  {
  }

  /** Lower-casing twice is lower-casing once. */
  lemma LowerIdempotent(s: string)
    ensures Lower(Lower(s)) == Lower(s)
  {
  }

  /** The whitelist of `upload_files`. */
  predicate Supported(ext: string)
  {
    ext == ".txt" || ext == ".md" || ext == ".pdf" || ext == ".docx"
  }

  /** The lower-cased extension `upload_files` checks and passes on. */
  function FileExt(filename: string): string
  {
    Lower(Extension(filename))
  }

  /** Which branch of `extract_text_from_file` an extension takes. */
  datatype Format = Pdf | Docx | PlainText | Unknown

  /**
   * The branch for an extension. The whitelist of `upload_files` and the
   * branches of `extract_text_from_file` agree: exactly the whitelisted
   * extensions have a reader.
   */
  function FormatOf(ext: string): (format: Format)
    ensures format != Unknown <==> Supported(ext)
    ensures format == Pdf <==> ext == ".pdf"
    ensures format == Docx <==> ext == ".docx"
  {
    if ext == ".pdf" then Pdf
    else if ext == ".docx" then Docx
    else if ext == ".txt" || ext == ".md" then PlainText
    else Unknown
  }

  // ---------------------------------------------------------------------
  // Text extraction

  /**
   * What the three readers would produce for one saved file: PyPDF2's page
   * texts (a page with no text is `None`), python-docx's paragraph texts,
   * and the UTF-8 text of a plain file. `None` in place of a whole reading
   * means that reader raises on this file.
   */
  datatype Readers = Readers(
    pdfPages: Option<seq<Option<string>>>,
    docxParagraphs: Option<seq<string>>,
    plainText: Option<string>)

  /** `page.extract_text() or ""`. */
  function PageText(page: Option<string>): string
  {
    match page
    case Some(t) => t
    case None => ""
  }

  /** The page texts, page by page. */
  function PageTexts(pages: seq<Option<string>>): seq<string>
  {
    seq(|pages|, i requires 0 <= i < |pages| => PageText(pages[i]))
  }

  /**
   * The text `extract_text_from_file(path, ext)` returns: the pages of a
   * PDF one after another, the paragraphs of a DOCX joined by newlines, a
   * plain file as read, and "" for any other extension or when the reader
   * raises.
   */
  function Extracted(format: Format, file: Readers): (text: string)
    ensures format == Unknown ==> text == ""
  {
    match format
    case Pdf =>
      (match file.pdfPages
       case Some(pages) => Concat(PageTexts(pages))
       case None => "")
    case Docx =>
      (match file.docxParagraphs
       case Some(paragraphs) => JoinWith("\n", paragraphs)
       case None => "")
    case PlainText =>
      (match file.plainText
       case Some(t) => t
       case None => "")
    case Unknown => ""
  }

  /** `extract_text_from_file`: the PDF branch accumulates page texts in a loop. */
  method ExtractText(ext: string, file: Readers) returns (text: string)
    ensures text == Extracted(FormatOf(ext), file)
  {
    if ext == ".pdf" {
      if file.pdfPages.None? {
        return "";
      }
      var pages := file.pdfPages.value;
      text := "";
      for i := 0 to |pages|
        invariant text == Concat(PageTexts(pages[..i]))
      {
        assert PageTexts(pages[..i + 1]) == PageTexts(pages[..i]) + [PageText(pages[i])];
        text := text + PageText(pages[i]);
      }
      assert pages[..|pages|] == pages;
    } else if ext == ".docx" {
      text := if file.docxParagraphs.Some? then JoinWith("\n", file.docxParagraphs.value) else "";
    } else if ext == ".txt" || ext == ".md" {
      text := if file.plainText.Some? then file.plainText.value else "";
    } else {
      text := "";
    }
  }

  /** A concatenation is blank exactly when every part is. */
  lemma {:induction false} BlankConcat(parts: seq<string>)
    ensures Blank(Concat(parts)) <==> forall i :: 0 <= i < |parts| ==> Blank(parts[i])
  {
    if |parts| > 0 {
      var init := parts[..|parts| - 1];
      BlankConcat(init);
      BlankAppend(Concat(init), parts[|parts| - 1]);
      assert forall i :: 0 <= i < |init| ==> parts[i] == init[i];
    }
  }

  /** Joined with a blank separator, the parts are blank exactly when every part is. */
  lemma {:induction false} BlankJoin(sep: string, parts: seq<string>)
    requires Blank(sep)
    ensures Blank(JoinWith(sep, parts)) <==> forall i :: 0 <= i < |parts| ==> Blank(parts[i])
  {
    if |parts| > 1 {
      var init := parts[..|parts| - 1];
      BlankJoin(sep, init);
      BlankAppend(JoinWith(sep, init), sep);
      BlankAppend(JoinWith(sep, init) + sep, parts[|parts| - 1]);
      assert forall i :: 0 <= i < |init| ==> parts[i] == init[i];
    }
  }

  /**
   * The text of a PDF or DOCX is blank (so the file is reported as empty or
   * unreadable) exactly when every page, or every paragraph, is blank.
   */
  lemma ExtractedBlank(file: Readers)
    ensures file.pdfPages.Some? ==>
      (Blank(Extracted(Pdf, file)) <==> forall i :: 0 <= i < |file.pdfPages.value| ==> Blank(PageText(file.pdfPages.value[i])))
    ensures file.docxParagraphs.Some? ==>
      (Blank(Extracted(Docx, file)) <==> forall i :: 0 <= i < |file.docxParagraphs.value| ==> Blank(file.docxParagraphs.value[i]))
  {
    if file.pdfPages.Some? {
      var pages := file.pdfPages.value;
      BlankConcat(PageTexts(pages));
      assert forall i :: 0 <= i < |pages| ==> PageTexts(pages)[i] == PageText(pages[i]);
    }
    if file.docxParagraphs.Some? {
      assert IsSpace('\n');
      BlankJoin("\n", file.docxParagraphs.value);
    }
  }

  // ---------------------------------------------------------------------
  // Outcome of one file

  /**
   * One uploaded file: its name, what the readers make of its saved copy,
   * and the exception (if any) raised while reading and saving it, and
   * while embedding and indexing its chunks.
   */
  datatype IncomingFile = IncomingFile(
    filename: string,
    readers: Readers,
    saveFailure: Option<string>,
    indexFailure: Option<string>)

  /** One indexed chunk: the document text and its `source` metadata. */
  datatype Entry = Entry(document: string, source: string)

  /** Why a file gets an error entry. */
  datatype Failure =
    | Unsupported
    | EmptyOrUnreadable
    | Unsplittable
    | Raised(message: string)

  /** What happens to one file: its text is chunked and indexed, or it fails. */
  datatype FileOutcome = Stored(text: string) | Failed(failure: Failure)

  /** Python's `s[:n]`. */
  function Take(s: string, n: nat): (r: string)
    ensures |r| == if |s| <= n then |s| else n
    ensures r == s[..|r|]
  {
    if |s| <= n then s else s[..n]
  }

  /** The text in parentheses after the file name in an error entry. */
  function Reason(failure: Failure): string
  {
    match failure
    case Unsupported => "неподдерживаемый формат"
    case EmptyOrUnreadable => "пустой или нечитаемый"
    case Unsplittable => "не удалось разбить на фрагменты"
    case Raised(message) => "ошибка: " + Take(message, 50) + "..."
  }

  /** The error entry `upload_files` reports for a failed file. */
  function ErrorEntry(filename: string, failure: Failure): string
  {
    filename + " (" + Reason(failure) + ")"
  }

  /**
   * Every error entry starts with the file's name and a space, and an
   * exception's message is cut to its first 50 characters.
   */
  lemma ErrorEntryNamesFile(filename: string, failure: Failure)
    ensures var e := ErrorEntry(filename, failure);
      |filename| < |e| && e[..|filename|] == filename && e[|filename|] == ' '
    ensures failure.Raised? ==>
      |ErrorEntry(filename, failure)| == |filename| + 14 + (if |failure.message| <= 50 then |failure.message| else 50)
  {
    var tail := " (" + Reason(failure) + ")";
    assert ErrorEntry(filename, failure) == filename + tail;
    assert tail[0] == ' ';
    if failure.Raised? {
      RaisedReason(failure.message);
    }
  }

  /**
   * The reason for an exception: "ошибка: ", the first 50 characters of its
   * message (all of it when shorter), and "...".
   */
  lemma RaisedReason(message: string)
    ensures var r, n := Reason(Raised(message)), if |message| <= 50 then |message| else 50;
      |r| == 11 + n &&
      r[..8] == "ошибка: " && r[8..8 + n] == message[..n] && r[8 + n..] == "..."
  {
    var prefix: string := "ошибка: ";
    var n := if |message| <= 50 then |message| else 50;
    var r := Reason(Raised(message));
    assert |prefix| == 8;
    assert r == prefix + Take(message, 50) + "...";
    assert r[..8] == prefix;
    assert r[8..8 + n] == Take(message, 50);
    assert r[8 + n..] == "...";
  }

  /** The text extracted from a file's saved copy. */
  function FileText(f: IncomingFile): string
  {
    Extracted(FormatOf(FileExt(f.filename)), f.readers)
  }

  /** The outcome of one file in the loop of `upload_files`. */
  function Outcome(f: IncomingFile): FileOutcome
  {
    if FormatOf(FileExt(f.filename)) == Unknown then Failed(Unsupported)
    else if f.saveFailure.Some? then Failed(Raised(f.saveFailure.value))
    else if Blank(FileText(f)) then Failed(EmptyOrUnreadable)
    else if f.indexFailure.Some? then Failed(Raised(f.indexFailure.value))
    else Stored(FileText(f))
  }

  /** The collection entries for the chunks of one file. */
  function EntriesFor(chunks: seq<string>, source: string): seq<Entry>
  {
    seq(|chunks|, i requires 0 <= i < |chunks| => Entry(chunks[i], source))
  }

  /**
   * A file is indexed exactly when its extension is supported, its copy is
   * saved, its text is not blank and indexing does not raise; an
   * unsupported file fails for that reason before anything else.
   */
  lemma StoredIff(f: IncomingFile)
    ensures Outcome(f).Stored? <==>
      Supported(FileExt(f.filename)) && f.saveFailure.None? && !Blank(FileText(f)) && f.indexFailure.None?
    ensures !Supported(FileExt(f.filename)) ==> Outcome(f) == Failed(Unsupported)
  {
  }

  /**
   * An indexed file's text is its extracted text and is not blank, so it
   * always has chunks (`Chunking.ChunksEmptyIffBlank`): the
   * chunk-splitting error is never reported.
   */
  lemma StoredNotBlank(f: IncomingFile)
    ensures match Outcome(f)
      case Stored(text) => text == FileText(f) && !Blank(text)
      case Failed(failure) => failure != Unsplittable
  {
  }

  // ---------------------------------------------------------------------
  // The whole request

  /** What the loop of `upload_files` does with one file, by name. */
  datatype Report = Report(filename: string, outcome: FileOutcome)

  /** The report of every file, in order. */
  function Reports(files: seq<IncomingFile>): (r: seq<Report>)
    ensures |r| == |files|
  {
    if |files| == 0 then []
    else
      var last := files[|files| - 1];
      Reports(files[..|files| - 1]) + [Report(last.filename, Outcome(last))]
  }

  /** Each file's report sits at the file's own position. */
  lemma {:induction false} ReportsAt(files: seq<IncomingFile>, i: nat)
    requires i < |files|
    ensures Reports(files)[i] == Report(files[i].filename, Outcome(files[i]))
  {
    if i < |files| - 1 {
      var init := files[..|files| - 1];
      ReportsAt(init, i);
    }
  }

  /** `success_count`: the files that were indexed. */
  function SuccessCount(reports: seq<Report>): nat
  {
    if |reports| == 0 then 0
    else SuccessCount(reports[..|reports| - 1]) + (if reports[|reports| - 1].outcome.Stored? then 1 else 0)
  }

  /** `errors`: one entry per failed file, in the order of the files. */
  function Errors(reports: seq<Report>): seq<string>
  {
    if |reports| == 0 then []
    else
      var last := reports[|reports| - 1];
      Errors(reports[..|reports| - 1]) +
        (match last.outcome case Failed(k) => [ErrorEntry(last.filename, k)] case Stored(_) => [])
  }

  /** The names of the files whose saved copy stays in the document directory. */
  function StoredNames(reports: seq<Report>): seq<string>
  {
    if |reports| == 0 then []
    else
      var last := reports[|reports| - 1];
      StoredNames(reports[..|reports| - 1]) + (if last.outcome.Stored? then [last.filename] else [])
  }

  /** The collection entries added, file by file and chunk by chunk. */
  function NewEntries(reports: seq<Report>): seq<Entry>
  {
    if |reports| == 0 then []
    else
      var last := reports[|reports| - 1];
      NewEntries(reports[..|reports| - 1]) +
        (match last.outcome case Stored(text) => EntriesFor(Chunks(text, DefaultChunkSize), last.filename) case Failed(_) => [])
  }

  /** Every file is counted once: as a success or as one error entry. */
  lemma {:induction false} CountsAddUp(reports: seq<Report>)
    ensures SuccessCount(reports) + |Errors(reports)| == |reports|
    ensures SuccessCount(reports) == |StoredNames(reports)|
  {
    if |reports| > 0 {
      CountsAddUp(reports[..|reports| - 1]);
    }
  }

  /** There are no error entries exactly when every file was indexed. */
  lemma NoErrorsIffAllStored(reports: seq<Report>)
    ensures Errors(reports) == [] <==> forall i :: 0 <= i < |reports| ==> reports[i].outcome.Stored?
  {
    if forall i :: 0 <= i < |reports| ==> reports[i].outcome.Stored? {
      AllStoredNoErrors(reports);
    } else {
      var i :| 0 <= i < |reports| && !reports[i].outcome.Stored?;
      FailedGivesError(reports, i);
    }
  }

  lemma {:induction false} AllStoredNoErrors(reports: seq<Report>)
    requires forall i :: 0 <= i < |reports| ==> reports[i].outcome.Stored?
    ensures Errors(reports) == []
  {
    if |reports| > 0 {
      var init := reports[..|reports| - 1];
      assert forall i :: 0 <= i < |init| ==> init[i] == reports[i];
      AllStoredNoErrors(init);
    }
  }

  lemma {:induction false} FailedGivesError(reports: seq<Report>, i: nat)
    requires i < |reports| && reports[i].outcome.Failed?
    ensures |Errors(reports)| > 0
  {
    if i < |reports| - 1 {
      var init := reports[..|reports| - 1];
      assert init[i] == reports[i];
      FailedGivesError(init, i);
    }
  }

  /**
   * Processing a batch is processing its two halves one after the other:
   * the counts add up, and the error entries and the saved copies are
   * concatenated (`NewEntriesOfConcat` does the same for the collection).
   */
  lemma {:induction false} AccountingOfConcat(a: seq<Report>, b: seq<Report>)
    ensures SuccessCount(a + b) == SuccessCount(a) + SuccessCount(b)
    ensures Errors(a + b) == Errors(a) + Errors(b)
    ensures StoredNames(a + b) == StoredNames(a) + StoredNames(b)
  {
    if |b| > 0 {
      var init := b[..|b| - 1];
      assert (a + b)[..|a + b| - 1] == a + init;
      AccountingOfConcat(a, init);
    } else {
      assert a + b == a;
    }
  }

  /** The collection entries of two runs of files, one after the other. */
  lemma {:induction false} NewEntriesOfConcat(a: seq<Report>, b: seq<Report>)
    ensures NewEntries(a + b) == NewEntries(a) + NewEntries(b)
  {
    if |b| > 0 {
      var init := b[..|b| - 1];
      assert (a + b)[..|a + b| - 1] == a + init;
      NewEntriesOfConcat(a, init);
    } else {
      assert a + b == a;
    }
  }

  /**
   * One more report: a success adds one to the count, a saved copy and the
   * file's chunks; a failure adds its error entry and nothing else.
   */
  lemma AccountingStep(reports: seq<Report>, r: Report)
    ensures r.outcome.Stored? ==>
      SuccessCount(reports + [r]) == SuccessCount(reports) + 1 &&
      Errors(reports + [r]) == Errors(reports) &&
      StoredNames(reports + [r]) == StoredNames(reports) + [r.filename] &&
      NewEntries(reports + [r]) == NewEntries(reports) + EntriesFor(Chunks(r.outcome.text, DefaultChunkSize), r.filename)
    ensures r.outcome.Failed? ==>
      SuccessCount(reports + [r]) == SuccessCount(reports) &&
      Errors(reports + [r]) == Errors(reports) + [ErrorEntry(r.filename, r.outcome.failure)] &&
      StoredNames(reports + [r]) == StoredNames(reports) &&
      NewEntries(reports + [r]) == NewEntries(reports)
  {
    assert (reports + [r])[..|reports|] == reports;
  }

  /**
   * A file with an unsupported extension gets the unsupported-format entry
   * and leaves neither a saved copy nor a collection entry.
   */
  lemma UnsupportedLeavesNothing(files: seq<IncomingFile>, f: IncomingFile)
    requires !Supported(FileExt(f.filename))
    ensures var before, after := Reports(files), Reports(files + [f]);
      SuccessCount(after) == SuccessCount(before) &&
      Errors(after) == Errors(before) + [ErrorEntry(f.filename, Unsupported)] &&
      StoredNames(after) == StoredNames(before) &&
      NewEntries(after) == NewEntries(before)
  {
    assert (files + [f])[..|files|] == files;
    var before := Reports(files);
    assert (before + [Report(f.filename, Failed(Unsupported))])[..|before|] == before;
  }

  /** The JSON body of `/upload`. */
  datatype UploadReply =
    | UploadRejected(status: int, detail: string)
    | UploadSummary(successCount: nat, totalFiles: nat, errors: Option<seq<string>>)

  /** The document directory and the vector collection. */
  class KnowledgeBase {
    /** The names of the files whose saved copy is in the document directory. */
    var documents: seq<string>
    /** The indexed chunks, in the order they were added. */
    var entries: seq<Entry>

    constructor ()
      ensures documents == [] && entries == []
    {
      documents := [];
      entries := [];
    }

    /**
     * The body of the loop of `upload_files` for one file: the copy is
     * saved, removed again when the file fails, and the chunks of a good
     * file are added to the collection.
     */
    method ProcessFile(f: IncomingFile) returns (error: Option<string>)
      modifies this
      ensures match Outcome(f)
        case Stored(text) =>
          error == None && documents == old(documents) + [f.filename] &&
          entries == old(entries) + EntriesFor(Chunks(text, DefaultChunkSize), f.filename)
        case Failed(failure) =>
          error == Some(ErrorEntry(f.filename, failure)) && documents == old(documents) && entries == old(entries)
    {
      var ext := FileExt(f.filename);
      if !Supported(ext) {
        return Some(ErrorEntry(f.filename, Unsupported));
      }
      if f.saveFailure.Some? {
        return Some(ErrorEntry(f.filename, Raised(f.saveFailure.value)));
      }
      documents := documents + [f.filename];
      var text := ExtractText(ext, f.readers);
      StripEmptyIffBlank(text);
      if Strip(text) == [] {
        documents := documents[..|documents| - 1];
        return Some(ErrorEntry(f.filename, EmptyOrUnreadable));
      }
      var chunks := ChunkText(text, DefaultChunkSize);
      if chunks == [] {
        // `chunk_text` returns no chunks only for a blank text, excluded above.
        assert false;
      }
      if f.indexFailure.Some? {
        documents := documents[..|documents| - 1];
        return Some(ErrorEntry(f.filename, Raised(f.indexFailure.value)));
      }
      entries := entries + EntriesFor(chunks, f.filename);
      error := None;
    }

    /**
     * `upload_files`: an empty request is refused with 400; otherwise every
     * file is processed in order, counting successes and collecting error
     * entries.
     */
    method UploadFiles(files: seq<IncomingFile>) returns (reply: UploadReply)
      modifies this
      ensures files == [] ==> reply == UploadRejected(400, "Нет файлов для загрузки") && unchanged(this)
      ensures var reports := Reports(files);
        files != [] ==>
          reply == UploadSummary(SuccessCount(reports), |files|, if Errors(reports) == [] then None else Some(Errors(reports))) &&
          documents == old(documents) + StoredNames(reports) &&
          entries == old(entries) + NewEntries(reports)
    {
      if files == [] {
        return UploadRejected(400, "Нет файлов для загрузки");
      }
      var successCount := 0;
      var errors: seq<string> := [];
      for i := 0 to |files|
        invariant successCount == SuccessCount(Reports(files[..i]))
        invariant errors == Errors(Reports(files[..i]))
        invariant documents == old(documents) + StoredNames(Reports(files[..i]))
        invariant entries == old(entries) + NewEntries(Reports(files[..i]))
      {
        var f := files[i];
        var error := ProcessFile(f);
        ghost var done := Reports(files[..i]);
        ghost var r := Report(f.filename, Outcome(f));
        assert files[..i + 1][..i] == files[..i];
        AccountingStep(done, r);
        if error.None? {
          AppendAssoc(old(documents), StoredNames(done), [f.filename]);
          AppendAssoc(old(entries), NewEntries(done), EntriesFor(Chunks(r.outcome.text, DefaultChunkSize), f.filename));
          successCount := successCount + 1;
        } else {
          errors := errors + [error.value];
        }
      }
      assert files[..|files|] == files;
      reply := UploadSummary(successCount, |files|, if errors == [] then None else Some(errors));
    }
  }
}

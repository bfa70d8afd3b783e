# LocalMind in Dafny

LocalMind is a small local retrieval-augmented question-answering service.
A FastAPI server accepts uploaded documents (`.txt`, `.md`, `.pdf`,
`.docx`) and extracts their text. It packs the words of the text into
chunks, closing each chunk as soon as it exceeds 512 characters (so every
chunk but the last is longer than that), and indexes them in a vector
collection. It then answers questions from the chunks most similar to the
question, handing them to a local language model as context. A static page
(`static/main.js`) uploads the files and asks the questions.

This project models the request-handling core and proves what it promises:

- **`Strings`**: joining strings with a separator (Python's `sep.join`,
  JavaScript's `Array.prototype.join`). Where each part sits inside the
  join, and how long the join is.
- **`Text`**: Python's whitespace class (`str.isspace`, `\s`), `strip()`,
  `split()` and `re.sub(r'\s+', ' ', s)`. JavaScript's `trim()` with its
  own, different whitespace class.
- **`Chunking`**: `chunk_text`. Its loop is a method proved equal to a
  greedy packing function. The packing is proved to be the unique chunking
  that keeps every word in order, closes a chunk as soon as it outgrows the
  size, and never closes one earlier.
- **`Upload`**: the POSIX `os.path.splitext` extension, its lower-casing
  and the whitelist. Text extraction per format, with the PDF page loop as
  a method. The per-file outcome of `upload_files` and its error entries.
  The `KnowledgeBase` class: the document directory and the collection,
  updated in place by the per-file step and the upload loop. The loop is
  proved to return the success count and the error list, and to leave
  exactly the successful files' copies and chunks behind.
- **`Query`**: `query_knowledge`. The blank-question guard, the two
  notices, the context layout (one source-labelled block per hit, separated
  by blank lines) and the distinct sources.
- **`Client`**: the page's `uploadFile` and `askQuestion` as methods of a
  `Page` class over the status line, the file selection, the question box
  and the result area. Round-trip lemmas connect the server's replies to what
  the page shows. Two lemmas show where the client's and server's notions of
  a blank question differ.

External effects are inputs:

- What the PDF, DOCX and plain-text readers produce for a saved file, and
  whether saving or indexing raises, are fields of `Upload.IncomingFile`.
- The collection's contents and the search hits are parameters of
  `Query.QueryKnowledge`, and the language model is a function parameter
  `ask(context, question)`.
- The HTTP response, or the exception `fetch` throws, is a parameter of the
  client methods.

## Model

| member | source | states |
|---|---|---|
| Strings.JoinLength | app.py:58 | the length of a join is the sum of the parts' lengths plus one separator per gap |
| Strings.JoinLayout | app.py:193 | part `i` of a join sits at its offset, and a separator follows it unless it is the last |
| Strings.JoinFlatten | app.py:56-62 | joining the joins of non-empty word groups with the same separator is joining all the words |
| Text.StripEmptyIffBlank | app.py:140 | `s.strip()` is empty exactly when every character of `s` is Python whitespace |
| Text.StripPadded | app.py:50 | `strip()` removes whitespace padding on both sides and keeps everything between |
| Text.SplitAllWords | app.py:53 | every piece `split()` yields is non-empty and has no whitespace |
| Text.SplitJoin | app.py:53 | `split()` of words joined by single spaces gives back those words |
| Text.NoWordsIffBlank | app.py:53 | `split()` yields nothing exactly for whitespace-only text |
| Text.CollapseShape | app.py:50 | `re.sub(r'\s+', ' ', s)` of a text not starting with whitespace is its words joined by single spaces, then a whitespace tail |
| Text.NormalizeIsJoinedWords | app.py:50 | collapsing and stripping a text gives its words joined by single spaces |
| Text.NormalizeKeepsWords | app.py:50 | normalising keeps exactly the words, in order, and leaves a single-spaced text |
| Text.NormalizeEmptyIffBlank | app.py:50-52 | the normalised text is empty exactly when the text is whitespace only |
| Text.SingleSpacedIsJoinedWords | app.py:50 | a single-spaced text is already in normal form |
| Text.JsTrim | static/main.js:43 | `trim()` leaves no JavaScript whitespace at either end and never grows the text |
| Text.JsTrimEmptyIffBlank | static/main.js:43-45 | `trim()` is empty exactly when the text is JavaScript whitespace only |
| Chunking.ChunkText | app.py:48-63 | `chunk_text` returns the greedy packing of the normalised text's words, and nothing exactly for a blank text |
| Chunking.PackWords | app.py:54-63 | the append-and-close loop produces exactly the greedy packing of the words |
| Chunking.GreedyPacked | app.py:56-62 | the packing of the remaining words, after closed chunks that each outgrew the size, is a greedy grouping of all the words |
| Chunking.ChunksAreChunking | app.py:48-63 | the chunks rejoin to the normalised text; each is non-empty and single-spaced; every chunk but the last is longer than the size; each fits without its last word |
| Chunking.ChunksEmptyIffBlank | app.py:50-52 | no chunks exactly for a whitespace-only text |
| Chunking.ChunkingKeepsWords | app.py:53-62 | the chunks' words, chunk after chunk, are the text's words: none lost, duplicated or reordered |
| Chunking.ChunkingIsGreedy | app.py:56-62 | the words of any chunking form a greedy grouping of the text's words |
| Chunking.GreedyGroupingUnique | app.py:56-62 | the words admit only one greedy grouping |
| Chunking.ChunkingUnique | app.py:48-63 | any two results meeting the chunk contract are equal, so the contract pins the output down |
| Upload.RFind | app.py:126 | the last index of a character (or -1) holds that character |
| Upload.RFindIsLast | app.py:126 | no occurrence of the character follows the one `rfind` finds |
| Upload.ExtensionIsSuffix | app.py:126 | the extension is a suffix of the name and starts with '.' when non-empty |
| Upload.ExtensionIffDotAfterName | app.py:126 | there is an extension exactly when the last path component has a non-dot character before a dot |
| Upload.ExtensionIsLastDotSuffix | app.py:126 | a non-empty extension lies inside the last component and holds no other '.' and no '/' |
| Upload.LowerAscii | app.py:126 | lower-casing keeps the length, leaves no ASCII capital and changes nothing else |
| Upload.LowerIdempotent | app.py:126 | lower-casing twice is lower-casing once |
| Upload.FormatOf | app.py:67-80 | exactly the whitelisted extensions of line 127 have a reader; `.pdf` and `.docx` select their readers |
| Upload.Extracted | app.py:79-83 | an unsupported extension extracts to "" |
| Upload.ExtractText | app.py:65-83 | the page loop and the other branches return the extraction for the extension's reader, "" when that reader raises |
| Upload.ExtractedBlank | app.py:67-75 | a PDF or DOCX text is blank exactly when every page or paragraph is |
| Upload.Take | app.py:165 | `s[:50]` is the prefix of length min(len(s), 50) |
| Upload.RaisedReason | app.py:165 | the exception reason is "ошибка: ", then the first min(len(message), 50) characters of the message, then "..." |
| Upload.ErrorEntryNamesFile | app.py:128 | every error entry starts with the file name and a space, and an exception's message is cut to 50 characters |
| Upload.StoredIff | app.py:125-162 | a file is indexed exactly when its extension is supported, saving succeeds, its text is not blank and indexing succeeds; an unsupported file fails first for that reason |
| Upload.StoredNotBlank | app.py:139-149 | an indexed file's text is not blank, so the chunk-splitting error never occurs |
| Upload.Reports | app.py:125 | one report per file |
| Upload.ReportsAt | app.py:125 | each file's report sits at its own position |
| Upload.CountsAddUp | app.py:122-173 | successes plus error entries equal the number of files, and successes equal the saved copies |
| Upload.NoErrorsIffAllStored | app.py:172 | `errors` is empty (sent as null) exactly when every file was indexed |
| Upload.AccountingOfConcat | app.py:125-167 | processing two runs of files counts the sum and concatenates the error entries and saved copies |
| Upload.NewEntriesOfConcat | app.py:151-160 | the collection entries of two runs of files are the first run's then the second's |
| Upload.UnsupportedLeavesNothing | app.py:126-129 | an unsupported file adds its error entry and neither a copy nor a collection entry |
| Upload.KnowledgeBase.ProcessFile | app.py:126-167 | one file: a success leaves its copy and adds its chunks under its name; a failure returns its error entry and leaves both stores as they were |
| Upload.KnowledgeBase.UploadFiles | app.py:113-173 | no files is refused with 400; otherwise the reply carries the success count, the file count and the error entries (null when none), and exactly the successful files' copies and chunks are added |
| Query.BlockParts | app.py:193 | a context block is the label, the source, "]", a newline and the chunk, each recoverable by slicing |
| Query.ContextLayout | app.py:193 | block `i` sits at its offset in the context, followed by a blank line unless it is the last |
| Query.ContextLength | app.py:193 | the context is as long as its blocks plus two characters per gap |
| Query.Distinct | app.py:196 | `list(set(xs))` has no duplicates and the same elements as `xs` |
| Query.DistinctUpToOrder | app.py:196 | any two duplicate-free lists with the same elements are permutations of each other, whatever order the set gives |
| Query.Sources | app.py:196 | the reply's sources have no duplicates and are exactly the sources of the hits |
| Query.QueryKnowledge | app.py:175-202 | rejected with 400 exactly for a blank question; answered exactly when the question is not blank and both the collection and the hits are non-empty, with the question, the model's answer to the context and the distinct sources |
| Query.QueryNotices | app.py:180-191 | an empty collection gets its notice before the search, and no hits get theirs |
| Client.Decimal | static/main.js:28 | a count prints as a non-empty run of decimal digits |
| Client.ParseDecimalOfDecimal | static/main.js:28 | the printed count reads back as the count |
| Client.SuccessStatus | static/main.js:25-32 | the success line starts with the prefix and carries the count; the errors segment ends it exactly when the joined errors are non-empty |
| Client.FailureStatus | static/main.js:34-39 | a refused upload shows the error prefix and then `detail`, or "Неизвестно" when it is absent or empty; a thrown request shows the network-error prefix and then the exception message |
| Client.ReplaceNewlinesAppend | static/main.js:60 | the newline replacement works piece by piece |
| Client.ReplaceNewlinesShape | static/main.js:60 | no newline remains, each grows the text by three characters, and a text without newlines is unchanged |
| Client.AnswerLayout | static/main.js:60-63 | the answer HTML is the answer paragraph, followed by the sources line exactly when `sources` is present |
| Client.Page.UploadFile | static/main.js:3-40 | no selection only asks for files; otherwise the files are sent in order, the status ends as the response dictates, and the selection clears only on an OK response |
| Client.Page.AskQuestion | static/main.js:42-68 | a question that trims to empty sends nothing and leaves the result area; otherwise the trimmed question is sent and the result area shows the response's HTML |
| Client.QueryRoundTrip | static/main.js:59-64 | for a question the server accepts, the page shows the server's answer, with the sources line exactly when the server answered from hits |
| Client.UploadRoundTrip | static/main.js:25-32 | after the server processes a batch, the status carries its success count and lists every error entry exactly when some file failed |
| Client.FirstErrorNotEmpty | app.py:128 | the first error entry is never empty, so the joined errors show |
| Client.ControlCharacterQuestion | static/main.js:43-48 | a question of U+001C passes the page's guard, the server refuses it with 400, and the page shows the error it raises reading `answer` |
| Client.ByteOrderMarkQuestion | static/main.js:43-48 | a question of U+FEFF is refused by the page but would be accepted by the server |
| Client.GuardsAgree | static/main.js:43-48 | apart from U+001C..U+001F, U+0085 and U+FEFF, the page's and the server's blank tests agree |
| Client.SentQuestionAccepted | static/main.js:43-57 | a question the page sends without those characters is never refused by the server |
| Client.JsTrimIsInfix | static/main.js:43 | `trim()` returns a contiguous piece of its input |

## Left out

- File I/O is not modelled: reading the upload, writing the copy under a uuid name, and `os.remove`. The document directory is the sequence `KnowledgeBase.documents` of the original file names. A saved copy is appended and removed again when the file fails.
- Embedding, ids and the vector search are not modelled. `embedding_model.encode`, the uuid ids and Chroma's similarity search are left out. The collection is the sequence of (chunk, source) entries. The search hits are an input, and the `n_results=3` bound is not enforced on them.
- `ask_ollama` (the HTTP call to the language model and its prompt) is the function parameter `ask`.
- Document parsing (PyPDF2, python-docx, UTF-8 decoding with `errors='ignore'`) is not modelled. It is replaced by what each reader would return, or by its failure.
- Exceptions are not modelled as exceptions. Where the upload loop catches an exception, that is an optional message on the file (saving, or embedding and indexing). The "(ошибка: …)" entry is modelled; the exception's own text is not.
- The server's `print` of extraction errors and the page's `alert` are not modelled.
- FastAPI's own 422 reply for a missing form field is not modelled. The error body it would send is not modelled either.
- JSON is not modelled as text. Fields are Dafny values; an absent or null field is `None`.
- Upload.LowerAscii: lower-casing is modelled for ASCII letters only. No non-ASCII character lower-cases into one of the whitelisted extensions, so acceptance is unaffected. The extension passed to the reader may differ for names with non-ASCII capitals.
- Query.Distinct: Python's set iteration order is unspecified. The model keeps first occurrences, and `Query.DistinctUpToOrder` shows that every possible order gives a permutation of it.
- Client.Page.AskQuestion: the text of the `TypeError` raised when the body has no `answer` comes from the browser. It is the parameter `typeError`.
- Upload.KnowledgeBase.UploadFiles: server requests are modelled as atomic. `upload_files` is a coroutine that awaits reading and writing each file, so another request may add to the same collection and document directory between two files. Its `documents` and `entries` clauses describe a request that runs alone.
- The asynchrony of the client is not modelled. The "Загрузка…" and "Думаю…" states are written and then overwritten within one method, so no interleaving with other events is modelled.
- The page follows `static/main.js` as written. That file has no theme switch, no language switch, no in-progress flag and no JSON query body, and none of these is modelled.
